# Game FSM test harness and MIF image converters, modelled in Dafny

This project models three Python scripts from an FPGA game design.

- `tests/ClockGenerator/Tests/game_clock_generator.py` is a cocotb test of the
  character state machine. The model covers:
  - the `to_hex` signal formatter;
  - the twenty-row expectation table, as a step function over five states
    (IDLE, LEFT, RIGHT, ATTACK_START, ATTACK_ACTIVE) and four key
    combinations;
  - the `Test_State` stimulus protocol, as a list of actions (drive keys or
    pass one clock edge) run against a DUT that behaves as the table says;
  - the flag packing `ATTACK << 2 | ATTACK_DIR << 1 | MOVE`;
  - the directional-attack check;
  - the final pass/fail verdict.
- `images/png_to_mif.py` packs RGB into RGB332. Its `image_to_mif` writes the
  lines of a memory initialisation file (MIF).
- `images/piskel_sayilar/convert.py` packs RGB the same way with shifts. It
  writes transparent pixels (alpha below 128) as white and writes the MIF
  with its own header.

Modules: `Wrappers` (Option), `Text` (radix rendering and parsing),
`SignalText` (`to_hex`), `GameFsm` (states, keys, table), `Stimulus`
(action lists and the table-driven DUT), `Orchestrator` (readings, packing,
verdict), `Mif` (bytes, data lines, row-major walk), `PngToMif` and
`PiskelConvert`.

A converter's output is modelled as a list of `Mif.Line` records (fixed header text, the DEPTH line, a data line, the closing line). `Mif.Render` gives each record's text, and `Mif.FileText` gives the text of a whole file.

Points of the test script that the model makes explicit:

- Under the flag packing at lines 100-102 (ATTACK in bit 2, ATTACK_DIR in
  bit 1, MOVE in bit 0), the directional expectation 0b011 at line 164 means
  MOVE and ATTACK_DIR set with ATTACK clear (`Orchestrator.DirectionalOnBits`).
- The RIGHT setup at lines 78-80 drives `[1, 0, 0]`, the LEFT vector of
  line 76, so it reaches LEFT and not RIGHT (`Stimulus.RightSetupHarmless`).
- The directional scenario at lines 154-160 drives ATTACK and then samples
  after a settle wait, with no clock edge after ATTACK is driven
  (`Stimulus.TablePredictsLeftAtDirectionalSample`).
- The comment at line 6 says "longer than 16 bits", but the guard at line 10
  is `>= 16`, so exactly 16 digits are already converted
  (`SignalText.SixteenBitsConverted`).
- The docstring at line 64 calls 0 pressed, but lines 157 and 159 comment
  `[1, 0, 0]` as LEFT KEY and `[0, 1, 0]` as ATTACK KEY, and the calls at
  lines 125-127 expect LEFT, ATTACK_START and RIGHT for the vectors with a 1
  in the first, second and third place. Line 120 says the physical KEY port
  is active-low, which `set_key` would account for. The model takes 1 as
  pressed.
- A mismatching call does not make the run fail (see Findings).

## Model

| member | source | states |
|---|---|---|
| Text.RadixText | tests/ClockGenerator/Tests/game_clock_generator.py:11-13 | the digits of a non-negative value in base 2, 10 or 16 are digits of that base, have no leading zero, and parse back to the value |
| Text.HexPaddedExact | tests/ClockGenerator/Tests/game_clock_generator.py:12-13 | zero-padded hex of a value below 16^width has exactly `width` digits, all hex digits, parsing back to the value (no truncation, no overflow) |
| SignalText.TrimStart | tests/ClockGenerator/Tests/game_clock_generator.py:9 | the result is a suffix of the input; everything removed is whitespace; the result does not start with whitespace |
| SignalText.TrimEnd | tests/ClockGenerator/Tests/game_clock_generator.py:9 | the result is a prefix of the input; everything removed is whitespace; the result does not end with whitespace |
| SignalText.OnlyBitsRemain | tests/ClockGenerator/Tests/game_clock_generator.py:10 | deleting every '1' and then every '0' leaves the empty string exactly when the text is made of 0s and 1s |
| SignalText.BinaryFitsHexDigits | tests/ClockGenerator/Tests/game_clock_generator.py:11-12 | a binary string of n bits has a value below 16^((n+3)/4), so the computed hex width always fits |
| SignalText.ToHex | tests/ClockGenerator/Tests/game_clock_generator.py:6-17 | if the stripped text is at least 16 binary digits, the result is "0x" followed by (n+3)/4 lower-case hex digits with the same value as the binary; otherwise the object comes back unchanged |
| SignalText.FifteenBitsUnchanged | tests/ClockGenerator/Tests/game_clock_generator.py:10 | a 15-bit binary string stays as it is (below the threshold) |
| SignalText.SixteenBitsConverted | tests/ClockGenerator/Tests/game_clock_generator.py:8-14 | a 16-bit binary string with surrounding whitespace becomes "0x" plus four lower-case hex digits with the binary's value |
| SignalText.NonBinaryUnchanged | tests/ClockGenerator/Tests/game_clock_generator.py:10 | text with any character that is not 0, 1 or whitespace comes back unchanged |
| GameFsm.KeyVector | tests/ClockGenerator/Tests/game_clock_generator.py:124-127 | each driven key vector has three 0/1 entries with at most one key pressed |
| GameFsm.KeyVectorInjective | tests/ClockGenerator/Tests/game_clock_generator.py:124-127 | distinct key combinations drive distinct vectors |
| GameFsm.CasesEnumerateTable | tests/ClockGenerator/Tests/game_clock_generator.py:123-151 | every (state, key) pair is exercised by a call, at position 4·state + key of the call order |
| GameFsm.CasesAreDistinct | tests/ClockGenerator/Tests/game_clock_generator.py:123-151 | no two calls test the same (state, key) pair |
| GameFsm.Step | tests/ClockGenerator/Tests/game_clock_generator.py:124-151 | in every row the expected flags are the flags of the expected next state; from ATTACK_START or ATTACK_ACTIVE the next state is neither the current one nor ATTACK_START, so an attack always moves on |
| GameFsm.StepMatchesCases | tests/ClockGenerator/Tests/game_clock_generator.py:123-151 | the step function gives exactly the expected state and flags of every one of the twenty calls |
| GameFsm.MovementFollowsKey | tests/ClockGenerator/Tests/game_clock_generator.py:123-139 | from IDLE, LEFT and RIGHT the outcome depends on the key alone: none to IDLE/0b000, left to LEFT/0b001, attack to ATTACK_START/0b100, right to RIGHT/0b001 |
| GameFsm.AttackIgnoresKeys | tests/ClockGenerator/Tests/game_clock_generator.py:141-151 | under every key ATTACK_START goes to ATTACK_ACTIVE/0b100 and ATTACK_ACTIVE goes to IDLE/0b000 |
| GameFsm.StateFlags | tests/ClockGenerator/Tests/game_clock_generator.py:119-151 | the flags shown in a state: MOVE exactly while moving, ATTACK exactly during an attack, ATTACK_DIR never |
| GameFsm.RightRowsEqualLeftRows | tests/ClockGenerator/Tests/game_clock_generator.py:129-139 | the RIGHT rows and the LEFT rows expect the same outcomes under every key |
| Stimulus.Apply | tests/ClockGenerator/Tests/game_clock_generator.py:93-94 | driving keys moves neither state nor flags until the next edge; after an edge the keys stay driven and the flags shown are those of the state reached |
| Stimulus.DrainReachesIdle | tests/ClockGenerator/Tests/game_clock_generator.py:67-69 | releasing all keys and passing two edges reaches IDLE from every DUT state |
| Stimulus.Reach | tests/ClockGenerator/Tests/game_clock_generator.py:72-88 | every setup branch ends with a clock edge, and no branch presses RIGHT, not even the RIGHT branch |
| Stimulus.SetupReaches | tests/ClockGenerator/Tests/game_clock_generator.py:67-88 | the setup reaches IDLE, LEFT, ATTACK_START and ATTACK_ACTIVE from any start; the RIGHT setup ends in LEFT |
| Stimulus.RightSetupHarmless | tests/ClockGenerator/Tests/game_clock_generator.py:78-80 | the RIGHT setup does not reach RIGHT, yet under every key the next edge gives what the RIGHT rows expect |
| Stimulus.CaseMeetsExpectation | tests/ClockGenerator/Tests/game_clock_generator.py:59-94 | running a call's whole action list from any DUT state ends in that call's expected state and flags |
| Stimulus.CasesAreIsolated | tests/ClockGenerator/Tests/game_clock_generator.py:67-94 | a call's outcome does not depend on the DUT state left by earlier calls or by the prelude edges |
| Stimulus.TablePredictsLeftAtDirectionalSample | tests/ClockGenerator/Tests/game_clock_generator.py:153-160 | at the directional sample point the table predicts LEFT with flags 0b001, with ATTACK held |
| Orchestrator.PackFlags | tests/ClockGenerator/Tests/game_clock_generator.py:100-102 | the packed value is below 8 and equals 4·(ATTACK bit 0) + 2·(ATTACK_DIR bit 0) + (MOVE bit 0) |
| Orchestrator.UnpackFlags | tests/ClockGenerator/Tests/game_clock_generator.py:100-102 | each flag's low bit is recovered from its own bit of the packed value |
| Orchestrator.DirectionalBits | tests/ClockGenerator/Tests/game_clock_generator.py:162-164 | for any flag values, mask bit 0 is MOVE bit 0; bit 1 is set iff ATTACK_DIR bit 0 or MOVE bit 1 is; bit 2 is set iff ATTACK bit 0, ATTACK_DIR bit 1 or MOVE bit 2 is |
| Orchestrator.DirectionalPassesExactly | tests/ClockGenerator/Tests/game_clock_generator.py:162-164 | for any flag values, the check passes iff MOVE bit 0 is set, ATTACK_DIR bit 0 or MOVE bit 1 is set, and none of ATTACK bit 0, ATTACK_DIR bit 1, MOVE bit 2 is set |
| Orchestrator.DirectionalOnBits | tests/ClockGenerator/Tests/game_clock_generator.py:162-164 | on one-bit flags the mask equals the case packing, and the check passes exactly when ATTACK is 0 and ATTACK_DIR and MOVE are 1 |
| Orchestrator.RaisesAsWrittenOnlyOnDirectional | tests/ClockGenerator/Tests/game_clock_generator.py:162-173 | as written, the run raises exactly when the directional check fails, whatever the twenty cases read |
| Orchestrator.MismatchesGoUnreported | tests/ClockGenerator/Tests/game_clock_generator.py:111-117 | twenty mismatching readings and a passing directional reading: the as-written verdict does not raise, the intended one does |
| Orchestrator.CasePasses | tests/ClockGenerator/Tests/game_clock_generator.py:100-112 | a call passes iff the state read is the expected one and bit 0 of ATTACK, ATTACK_DIR and MOVE equal bits 2, 1 and 0 of the expected flags (which must be below 8) |
| Orchestrator.Accumulate | tests/ClockGenerator/Tests/game_clock_generator.py:50 | the failed flag threaded through the cases ends true exactly when it started true or some case failed |
| Orchestrator.Raises | tests/ClockGenerator/Tests/game_clock_generator.py:172-175 | the intended verdict raises exactly when some case or the directional check failed |
| Orchestrator.TableDutPassesEveryCase | tests/ClockGenerator/Tests/game_clock_generator.py:111-112 | a DUT that follows the table passes every one of the twenty comparisons |
| Orchestrator.CaseReadingsAt | tests/ClockGenerator/Tests/game_clock_generator.py:123-151 | in a run of calls on one DUT, each call reads what it would read from any start |
| Orchestrator.TableDutFailsDirectional | tests/ClockGenerator/Tests/game_clock_generator.py:47-175 | in one whole run (prelude edges, the twenty calls in order, the directional scenario) of a DUT whose flags follow the table alone, all twenty calls pass but the directional check fails, so both verdicts raise |
| Mif.DataLine | images/png_to_mif.py:23 | a data line is a decimal address, " : ", two upper-case hex digits and ";", and it parses back to its address and its byte |
| Mif.Framed | images/png_to_mif.py:11-26 | a file is its header, then one data line per byte whose address counts up from 0 and which carries that byte, then "END;", and nothing else |
| Mif.FramedReadsBack | images/png_to_mif.py:11-26 | when no header line starts with a decimal digit, a reader of the file text finds data lines exactly after the header and before "END;", at offset k holding address k and the k-th byte |
| Mif.DepthLine | images/png_to_mif.py:13 | the DEPTH line parses back to the depth written |
| Mif.FlattenLength | images/png_to_mif.py:19-20 | the nested row/column loops visit width·height pixels of a rectangular grid |
| Mif.FlattenAt | images/png_to_mif.py:19-21 | the nested row/column loops visit pixel (x, y) of a rectangular grid at position RowStart(y, width) + x |
| Mif.RowStartIsProduct | images/png_to_mif.py:19-24 | the row start counted row by row is y·width, so the address of pixel (x, y) is y·width + x |
| Mif.AreaIsProduct | images/png_to_mif.py:13 | the pixel count used for DEPTH is width·height |
| PngToMif.Rgb332 | images/png_to_mif.py:4-5 | the byte's bits 7..5 are red's top three bits, bits 4..2 are green's top three bits, bits 1..0 are blue's top two bits |
| PngToMif.Rgb332IsSum | images/png_to_mif.py:5 | the three fields are disjoint, so the OR equals their sum |
| PngToMif.Rgb332SameByte | images/png_to_mif.py:5 | two colours give the same byte exactly when they agree in those top bits |
| PngToMif.Header | images/png_to_mif.py:12-16 | five header lines; the DEPTH line reads back as the depth; no header line reads as a data line |
| PngToMif.ImageToMif | images/png_to_mif.py:7-26 | the file has 6 + width·height lines: WIDTH=8, DEPTH=width·height, the radix and CONTENT BEGIN lines, one data line per pixel with addresses 0, 1, 2, … and "END;" last |
| PngToMif.ImageToMifReadsBack | images/png_to_mif.py:11-26 | reading the written text back finds data lines exactly between the header and "END;", the k-th at address k holding the RGB332 byte of the k-th pixel in row-major order |
| PngToMif.ImageToMifPixel | images/png_to_mif.py:18-24 | pixel (x, y) is written on data line RowStart(y, width) + x (that is y·width + x), with that address and its RGB332 byte |
| PiskelConvert.Rrrgggbb | images/piskel_sayilar/convert.py:4-8 | the byte's bits 7..5, 4..2 and 1..0 give back red's, green's and blue's top bits |
| PiskelConvert.SamePackingAsRgb332 | images/piskel_sayilar/convert.py:4-8 | this packing gives the same byte as `rgb_to_rgb332` for every colour |
| PiskelConvert.PixelByte | images/piskel_sayilar/convert.py:26-30 | a pixel with alpha below 128 becomes 0xFF; any other pixel becomes the RGB332 byte of its colour |
| PiskelConvert.AlphaIgnoredWhenOpaque | images/piskel_sayilar/convert.py:27-30 | at or above 128, alpha does not affect the byte |
| PiskelConvert.TransparentLooksWhite | images/piskel_sayilar/convert.py:27-29 | a transparent pixel and an opaque white pixel give the same byte |
| PiskelConvert.Header | images/piskel_sayilar/convert.py:19-21 | eight header lines (the blank ones included); the DEPTH line reads back as the depth; no header line reads as a data line |
| PiskelConvert.PngToMifWithWhiteTransparency | images/piskel_sayilar/convert.py:16-34 | the file has 9 + width·height lines: WIDTH=8, DEPTH=width·height, the blank-separated radix and CONTENT/BEGIN lines, data lines with addresses 0, 1, 2, … and "END;" last |
| PiskelConvert.PngToMifWithWhiteTransparencyReadsBack | images/piskel_sayilar/convert.py:18-34 | reading the written text back finds data lines exactly between the header (blank lines included) and "END;", the k-th at address k holding the byte of the k-th pixel |
| PiskelConvert.PixelLine | images/piskel_sayilar/convert.py:23-32 | pixel (x, y) is written on data line RowStart(y, width) + x (that is y·width + x), with that address and its byte under the white-transparency rule |
| PiskelConvert.OpaqueBytesMatch | images/piskel_sayilar/convert.py:26-30 | for a grid without transparent pixels, both converters produce the same byte sequence |
| PiskelConvert.OpaqueImageMatchesImageToMif | images/piskel_sayilar/convert.py:19-34 | for an image without transparent pixels, everything after the header equals what `image_to_mif` writes after its header |

## Left out

- Simulation and timing: cocotb coroutines, `RisingEdge`, `Timer` and the clock. Each edge is one `Edge` action. Settle waits only order sampling after edges, so they have no action.
- `set_key` and the `*_STATE` constants are neither defined nor imported in `game_clock_generator.py`. As the file stands, line 124 raises `NameError` before any call runs, so the script never reaches its verdict. The model assumes they are supplied from elsewhere: five distinct state codes, and a `set_key` that treats 1 as pressed. Keys are the four named combinations, states are the five named states, and a STATE code naming no state reads as `None`.
- The DUT's state before the run, and so the state the two edges at lines 56-57 leave, is a parameter: nothing fixes how the hardware powers up. `Orchestrator.CaseReadingsAt` shows that no call depends on it.
- The `ValueError` path at lines 99-109, for indeterminate X/Z bit values, is not modelled. If lines 100-102 raise, neither `result` nor `final_state` is bound; if line 103 raises, `result` is bound but `final_state` is not. Either way line 112 reads `final_state` first and raises `UnboundLocalError`, which ends the test with an error rather than a recorded mismatch.
- `Log_Design` (lines 19-44) is not modelled. It walks the DUT's attributes by reflection and prints them, so it is diagnostic output only.
- The printed messages and the `cocotb.log` success line are not modelled.
- The unused `random` import is not modelled.
- SignalText.ToHex: the model takes the signal's text, not the object; `str(obj)` and the `except` branch are out of scope. Over text, nothing in the `try` block can raise, so the handler is never taken.
- SignalText.IsSpace is the fixed set of characters Python's `str.isspace` accepts. No other Unicode processing is modelled.
- Image loading (PIL, `convert('RGB')`/`convert('RGBA')`, numpy) is not modelled. The grid arrives as rows of pixels.
- File writing is not modelled. The converters return the lines of the file as records; `Mif.FileText` renders them without their trailing newlines, and the doubled newlines of `convert.py` become empty literal lines.
- The converters' directory scans and prints are not modelled: `os.listdir`, the `__main__`-level example call, and the dimension prints.
- Channel values are eight-bit (`bv8`). PIL and numpy `uint8` never give anything wider, so the type itself states the 0..255 bound of the packed byte.

## Findings

| source | as written | input that shows it | evidently intended | confidence | as-written member | corrected member |
|---|---|---|---|---|---|---|
| tests/ClockGenerator/Tests/game_clock_generator.py:115 | `test_failed = True` inside the nested `Test_State` has no `nonlocal`, so it binds a new local. A mismatching case never sets the flag read at line 172. | Assuming `set_key` and the `*_STATE` names are supplied (see Left out): all twenty cases read a state code naming no state with flags 0b000, and the directional sample reads 0b011. Every case fails, yet the run ends with "All test cases passed". | Any failed case makes the final check raise `AssertionError` (a `nonlocal test_failed` declaration) | high; not executed | Orchestrator.RaisesAsWritten (shown by Orchestrator.MismatchesGoUnreported) | Orchestrator.Raises |
