# pocket-key-433 core, modelled in Dafny

A model of the three stateful components of the pocket-key-433 433 MHz remote-control firmware:

- **Button** (`button.dfy`): the debounce and hold state machine that `Button::process` runs over the four buttons on every call. Each button moves Released → Pressed → Hold → Released and produces PressStart, HoldStart, PressEnd or HoldEnd. A call reports the first button in list order that produced an action. The millisecond clock is a 32-bit `unsigned long`, so `activeTimeMs + threshold` wraps modulo 2^32 before the comparison, and the model writes that wrap out.
- **Menu** (`menu.dfy`): the menu tree and its navigator. Items live in an arena and refer to each other by index, with `None` as the null pointer. `Navigator.Navigate` follows `Menu::navigate`: it moves over `prev`/`next`/`child`/`parent` links, rewrites the target's parent link, and reports the enter or exit callback it would call. `Navigator.Draw` follows `Menu::draw`: it counts siblings with while-loops, walks back to the start of the page, and fills five rows. The screen is returned as a value (`Screen`) instead of calls to the display driver.
- **Slot** (`slot.dfy`): the slot store. It is an array of `{name, signal}` records with bounds-checked getters and setters, `reset` to `"Slot NN"`, and persistence in a byte-addressed EEPROM. Each record is stored as its raw bytes followed by a CRC-8 byte. `LoadAll` repairs damaged slots and `EraseAll` fills the region with 0xFF. The record layout is the packed structure on the 8-bit AVR target: 21 name bytes, a 16-bit protocol, a 32-bit value and a 16-bit bit length, little-endian, 29 bytes in all. The CRC is CRC-8 with polynomial 0x07, initial value 0, no reflection and no final xor.
- `option.dfy` holds the shared `Option` type.

Each imperative operation is a method on a class: `ButtonPanel`, `Navigator` or `SlotStore`. Each is proved against a specification function: `Evaluate`/`Processed`/`Reported`, `Transition`/`Moved`/`Layout`, or `Loaded`/`Saved`/`Repaired`/`Erased`. The properties that span several calls are lemmas about those functions.

## Model

| member | source | states |
|---|---|---|
| Button.Deadline | button.cpp:89-97 | the threshold deadline is `activeTimeMs + threshold` reduced modulo 2^32, as `unsigned long` arithmetic does |
| Button.Evaluate | button.cpp:77-114 | one button's step. Identity fields are kept. The state only advances Released→Pressed→Hold or falls back to Released. The first active sample only sets `isActive` and records `activeTimeMs = now`. PressStart occurs iff the button is active, Released and past the debounce deadline, and HoldStart iff it is active, Pressed and past the hold deadline. Going inactive gives PressEnd iff Pressed and HoldEnd iff Hold, and always ends Released. `activeTimeMs` changes only on the first active sample |
| Button.FirstActing | button.cpp:116-120 | the index of the first button from a position on that produces an action, with every button before it quiet |
| Button.ProcessReportsFirstActing | button.cpp:71-123 | a call reports None iff every button was evaluated and stayed quiet. Otherwise it reports the id of the first button that acted, every earlier button was evaluated quietly, and every later button is untouched |
| Button.ButtonPanel.Process | button.cpp:69-124 | the scan updates the list exactly as `Processed` describes and returns `Reported`. Ids stay unique |
| Button.ButtonPanel.Update | button.cpp:77-114 | the field-by-field update of one button equals `Evaluate` |
| Button.LastWithId | button.cpp:136-142 | the index of the last button with a given id, or -1 iff no button has it |
| Button.LastWithIdUnique | button.cpp:136-142 | with unique ids, the last match is the only match |
| Button.ButtonPanel.GetState | button.cpp:132-145 | the state of the last button with the id, or Released when no button has it |
| Button.ButtonPanel.GetAction | button.cpp:153-166 | the action of the last button with the id, or None when no button has it |
| Button.InitialList | button.cpp:29-50 | four buttons with distinct ids, all Released, inactive and without an action |
| Button.ButtonPanel.constructor | button.cpp:29-50 | the panel starts with the initial list |
| Button.ActiveNeverReleases | button.cpp:80-102 | while the level stays active, a button that has left Released never returns to it and never reports PressStart again |
| Button.ActiveHoldIsQuiet | button.cpp:96-102 | while the level stays active, a button in Hold stays there and reports nothing |
| Button.HeldPressStartsOnce | button.cpp:83-102 | a continuously active button reports PressStart at most once and HoldStart at most once |
| Button.ShortPressNoPressStart | button.cpp:89-95 | without clock wrap, samples no later than the debounce deadline produce no PressStart and leave the record unchanged |
| Button.LongPressReportsPressStart | button.cpp:83-95 | without clock wrap, a press kept active until a sample after the debounce deadline reports PressStart |
| Button.LongHoldReportsHoldStart | button.cpp:96-102 | without clock wrap, a press kept active from Pressed until a sample after the hold deadline reports HoldStart |
| Button.PressStartEarlyNearWrap | button.cpp:89-90 | for an edge `d` ms before the clock wraps, 2 ≤ d ≤ 20, every sample before the wrap reports PressStart, less than the debounce time after the edge, because the deadline sum wraps |
| Button.PressStartLateNearWrap | button.cpp:89-90 | for an edge `d` ms before the clock wraps, d > 20, the deadline is `2^32 - d + 20`, and every sample up to it, including every sample after the wrap, leaves the button Released with no action |
| Menu.Siblings | menu.cpp:106-126 | the sibling list of an item, first to last. Its length is prev count + 1 + next count, and the item sits at its prev count |
| Menu.ChainLinks | menu.cpp:115-122 | following `next` from an item visits items in increasing index order, ends at an item with no `next`, and takes `NextCount` steps |
| Menu.ChainBackLinks | menu.cpp:106-113 | along a sibling chain, each item's `prev` is the one before it |
| Menu.ChainFromFirst | menu.cpp:106-113 | an item sits in its sibling list after exactly its prev count of siblings |
| Menu.SiblingsLinked | menu.cpp:106-122 | the sibling list starts at an item with no `prev`, ends at one with no `next`, and each item links to its neighbours both ways |
| Menu.SiblingsDistinct | menu.cpp:106-122 | no item appears twice in a sibling list |
| Menu.LayoutPosition | menu.cpp:124-127 | the screen shows position `index + 1` of `total`, where `total` is prev count + 1 + next count and the item is the `index`-th sibling |
| Menu.LayoutMarksCurrent | menu.cpp:138-151 | exactly one row is marked, the row at `index mod 5`, and it shows the current item's text |
| Menu.LayoutPage | menu.cpp:129-155 | the page starts at a multiple of 5 no later than the item. Rows past the last sibling are blank, and row `k` otherwise shows the text of sibling `start + k` |
| Menu.Invoke | menu.cpp:61-64 | a handler makes a call iff its callback pointer is set, and the call carries the handler's callback and param |
| Menu.Transition | menu.cpp:34-77 | Prev/Next target `prev`/`next` and give the target the current item's parent, with no call. Enter targets `child`, gives it the current item as parent, and makes the enter call. Exit targets `parent`, changes no link, and makes the exit call. No other parent link changes |
| Menu.Moved | menu.cpp:79-82 | the current item after a step is the target when it exists and differs from the current item, otherwise it is unchanged |
| Menu.SiblingMoveKeepsHeader | menu.cpp:36-52 | after Prev or Next the header is the same as before |
| Menu.EnterShowsParentText | menu.cpp:54-60 | entering an item with a child moves to the child, whose header is the entered item's text |
| Menu.EnterThenExit | menu.cpp:54-73 | Enter on an item with a child, then Exit, returns to the original item, with the enter call and then the child's exit call |
| Menu.NextThenPrev | menu.cpp:36-52 | Next then Prev returns to the original item, and both items keep the original parent |
| Menu.PrevThenNext | menu.cpp:36-52 | Prev then Next returns to the original item, and both items keep the original parent |
| Menu.StaysAtEdges | menu.cpp:36-82 | Prev at the first sibling, Next at the last, Enter on a leaf and Exit at the top leave the current item and every parent link unchanged |
| Menu.Navigator.constructor | menu.cpp:19 | a navigator starts with no current item |
| Menu.Navigator.Draw | menu.cpp:94-157 | a null item changes nothing. Otherwise the item becomes current and the screen is `Layout` of it. Parent links are unchanged |
| Menu.Navigator.CountPrev | menu.cpp:106-113 | the loop counts exactly the `prev` links from the item |
| Menu.Navigator.CountNext | menu.cpp:115-122 | the loop counts exactly the `next` links from the item |
| Menu.Navigator.WalkBack | menu.cpp:129-136 | walking back `index mod 5` links lands on the sibling at the page start |
| Menu.Navigator.FillRows | menu.cpp:138-155 | the five rows filled from the page start are the rows of `Layout` |
| Menu.Navigator.Navigate | menu.cpp:28-86 | with no current item nothing changes. Otherwise the parent links, the call and the new current item follow `Transition` and `Moved`. The target is drawn exactly when the current item changes, and the current item is returned |
| Slot.DecodeEncode | slot.cpp:20-24 | a record written as bytes and read back is the same record |
| Slot.EncodeDecode | slot.cpp:20-24 | any 29 bytes read into a record and written out are the same bytes |
| Slot.CrcFromInjective | slot.cpp:156 | CRC-8 steps over the same data never merge two different registers |
| Slot.CrcDetectsByteChange | slot.cpp:188-189 | changing any single byte of a record changes its CRC-8 |
| Slot.ErasedRecordCrc | slot.cpp:225-231 | the CRC-8 of an erased record (29 bytes of 0xFF) is 0xBB, not the erased CRC byte 0xFF |
| Slot.CStringOf | slot.cpp:86-100 | the C string a buffer holds: the bytes before the first NUL, followed by a NUL when it ends inside the buffer |
| Slot.Truncated | slot.cpp:119 | a prefix of the name of length `min(|s|, NameLengthMax)`: the first 20 characters, or the whole name when it is shorter |
| Slot.WriteName | slot.cpp:118-119 | after `snprintf(buf, 21, "%s", s)` the buffer holds the truncated name as a C string, and the bytes after the terminator are untouched |
| Slot.Decimal | slot.cpp:139 | the decimal digits of a number, whose value is the number, with no leading zero unless the number is a single digit |
| Slot.ZeroPad2 | slot.cpp:139 | `%02d`: at least two digits whose value is the number, exactly `[n / 10, n % 10]` below 100 |
| Slot.DefaultName | slot.cpp:139 | a default name contains no NUL |
| Slot.DefaultNameDigits | slot.cpp:139 | for slot numbers up to 99 the default name is `"Slot "` and two digits of `i + 1` |
| Slot.ResetItem | slot.cpp:138-142 | a reset record has the invalid signal |
| Slot.ResetItemName | slot.cpp:138-139 | a reset record reads back its default name |
| Slot.PutAt | slot.cpp:164-165 | `EEPROM.put` changes exactly the bytes it writes |
| Slot.SlotAddressFrames | slot.cpp:157 | slot `i` starts at `i` times the size of a record plus its CRC byte |
| Slot.SlotInRegion | slot.cpp:157-158 | each slot's 30 bytes lie inside the 600-byte region, which fits in EEPROM |
| Slot.SavedFrame | slot.cpp:151-167 | `save(i)` writes the record bytes at `i * 30` and their CRC after them, and leaves every other byte unchanged |
| Slot.SavedOthers | slot.cpp:151-167 | `save(i)` leaves every other slot's stored bytes unchanged |
| Slot.SavedReadsBack | slot.cpp:151-167 | a saved slot is intact and holds the saved record |
| Slot.SaveThenLoad | slot.cpp:151-218 | `save(i)` then `loadAll` restores slot `i` exactly, and every other slot loads as before |
| Slot.LoadedDamaged | slot.cpp:208-214 | a slot whose CRC does not match loads with its default name and the invalid signal |
| Slot.RepairedStep | slot.cpp:178-214 | handling one slot writes EEPROM only when the slot is damaged, and then writes the reset record |
| Slot.FilledIsLoadedSignal | slot.cpp:189-206 | a slot counts as valid exactly when its CRC matched and its loaded signal is not invalid |
| Slot.ValidCount | slot.cpp:174-218 | the valid count is at most the number of slots examined |
| Slot.ValidCountZero | slot.cpp:174-218 | the valid count is zero exactly when no slot counts as valid |
| Slot.RewrittenStepOthers | slot.cpp:178-214 | handling slot `n-1` leaves every other slot's stored bytes unchanged |
| Slot.RewrittenKeepsRest | slot.cpp:178-214 | handling slots `0 .. n-1` leaves later slots' stored bytes unchanged |
| Slot.RewrittenKeepsOutside | slot.cpp:178-214 | handling slots never writes beyond the slot region |
| Slot.RewrittenLast | slot.cpp:189-214 | after slot `i` has been handled it is intact and holds its old record or the repair record |
| Slot.RewrittenIsIntact | slot.cpp:178-214 | every handled slot stays intact and holds its old record or the repair record |
| Slot.RewrittenIntactIsIdentity | slot.cpp:189-207 | handling intact slots writes nothing |
| Slot.RepairedIsIntact | slot.cpp:174-218 | after `loadAll`, every slot is intact in EEPROM and holds the record the load put in memory |
| Slot.RepairedKeepsOutside | slot.cpp:174-218 | `loadAll` never writes beyond the slot region |
| Slot.LoadTwice | slot.cpp:174-218 | a second `loadAll` finds every slot intact, writes nothing, loads the same records and returns the same count |
| Slot.SameLoadSameFilled | slot.cpp:189-206 | an intact slot that loads like another image's slot is counted exactly when that one is |
| Slot.SameSlotSameLoad | slot.cpp:180-188 | what a slot loads depends only on its own record and CRC bytes |
| Slot.OneByteOthers | slot.cpp:180-188 | changing one byte inside slot `i`'s 30 bytes leaves every other slot loading as before |
| Slot.CorruptCrcResets | slot.cpp:186-214 | a CRC byte that does not match the record makes the next load reset that slot to its default name and the invalid signal, and no other slot is affected |
| Slot.RecordChangeBreaks | slot.cpp:185-189 | changing one record byte of an intact slot makes its CRC mismatch |
| Slot.CorruptRecordResets | slot.cpp:185-214 | changing any one record byte of an intact slot makes the next load reset that slot to its default name and the invalid signal, and no other slot is affected |
| Slot.EraseThenLoad | slot.cpp:174-231 | after `eraseAll`, `loadAll` counts no valid slot and gives every slot its default name and the invalid signal |
| Slot.SlotStore.constructor | slot.cpp:31 | the slot list starts zero-initialised, and the EEPROM holds whatever it held at power-on |
| Slot.SlotStore.GetName | slot.cpp:86-100 | the name is present exactly in range. It is a prefix of the slot's 21-byte buffer with no NUL, followed in the buffer by a NUL when shorter, so it is the C string the buffer holds. Out of range it is None, the null pointer |
| Slot.SlotStore.GetSignal | slot.cpp:40-58 | in range, the slot's stored signal; out of range, the invalid signal `{0, 0, 0}` |
| Slot.SlotStore.SetSignal | slot.cpp:66-78 | in range, slot `i`'s signal is replaced unconditionally. Out of range nothing changes. No other slot and no name changes. `GetSignal(i)` then returns the signal, or the invalid signal out of range |
| Slot.SlotStore.SetName | slot.cpp:108-121 | in range, slot `i`'s name becomes the name truncated to 20 characters and terminated. Out of range nothing changes. No other slot and no signal changes |
| Slot.SlotStore.Reset | slot.cpp:128-144 | in range, slot `i` gets its default name `"Slot NN"` and the invalid signal. No other slot changes |
| Slot.SlotStore.Save | slot.cpp:151-167 | in range, EEPROM becomes `Saved`: the record bytes and their CRC at the slot's address. Out of range nothing changes |
| Slot.SlotStore.LoadAll | slot.cpp:174-218 | every slot holds `Loaded`, EEPROM becomes `Repaired`, and the result is the number of intact slots with a signal |
| Slot.SlotStore.LoadSlot | slot.cpp:180-214 | one round of the load loop: the slot gets `Loaded`, EEPROM advances by one repair step, and the slot is counted exactly when `Filled` |
| Slot.SlotStore.Repair | slot.cpp:208-214 | the load loop's branch for a damaged slot: the slot gets its default name and the invalid signal, EEPROM becomes `Saved` with that reset record, and no other slot changes |
| Slot.SlotStore.EraseAll | slot.cpp:223-231 | EEPROM becomes `Erased`: 0xFF over the 600-byte slot region and every other byte unchanged |

## Left out

- Display output: fonts, styles, pixel positions and the `printf` field widths (`%-16.16s`, `%-20.20s`, `%2u/%-2u`) are not modelled. A screen is the header text, the position, the total and five rows of marker and full item text. `display.cpp` is not part of this model.
- Debug logging (`Log::printf`, `log.cpp`) is I/O only.
- Hardware calls become parameters. `millis()` is the `now` argument of `Process`. `digitalRead` is the `levels` argument, one level per button in list order. `Button::initialize` (`pinMode`) has no logic to model.
- EEPROM is a 1024-byte sequence (ATmega328P). `EEPROM.get/put/write` become sequence reads and updates. `EraseAll` keeps the byte loop, one `EEPROM.write` per byte, as an update of one element of the sequence.
- `calcCRC8` comes from a library that is not part of this model. It is given the common CRC-8 definition (polynomial 0x07, initial 0). The proofs use only its single-byte error detection and the value it takes on an erased record.
- Menu callbacks: their bodies are not visible. `Navigate` returns the call it would make (function and param) and assumes the callback does not touch the menu.
- Menu.Navigator.Navigate: actions other than the four named ones reach `default: break` in the source. `Action` has only the four values, so that branch is not modelled.
- Menu.Linked: menus with a circular sibling list, or with 256 items or more, are excluded. So are menus whose `prev` and `next` links are not mutual inverses (`items[p].next == Some(i)` whenever `items[i].prev == Some(p)`, and the converse). `navigate` and `draw` never check this and walk each direction on its own. The model needs it to relate the backward walk of `draw` to the forward one. Below 256 items the `uint8_t` counters of `draw` never wrap. Requiring a `prev` sibling to have a smaller arena index and a `next` sibling a larger one is a layout convention of the arena. It is not a property of the source's pointers.
- Menu.Navigator: the source keeps each `parent` link inside its item. The model keeps the links as one sequence beside the immutable item arena.
- Slot.SlotStore.GetSignal: the source returns a reference into the slot list, so a later `setSignal` on that slot shows through a reference taken earlier. The model returns a copy of the signal.
- Slot.SlotStore.GetName: in range, the source returns a pointer to the buffer. For a buffer with no NUL, C would read past its end. The model stops at the buffer's end.
- Slot constants: `slotsCount` (20) and `nameLengthMax` (20) are declared in a header that is not part of this model. The headers that are present declare an older API. Only `Signal`'s shape and the invalid signal `{0, 0, 0}` are taken from them.
- Slot.SlotStore.SetSignal, Slot.SlotStore.SetName, Slot.SlotStore.Reset: the setters change only the in-memory list. A change reaches EEPROM only through a later `save`.
- Button.Evaluate: the code compares `now > activeTimeMs + threshold` with a wrapping sum, not `now - activeTimeMs > threshold` with wrapping subtraction. It has no HoldContinue repeat. It does not refresh `activeTimeMs` on PressStart, so the hold time counts from the first active edge. The model follows the code in all three. The wrapping sum has two consequences near the clock wrap. A press first seen 2–20 ms before the wrap is reported at any sample before the wrap, before the debounce time has passed (`Button.PressStartEarlyNearWrap`). A press first seen 22 ms or more before the wrap, and not sampled between its deadline and the wrap, gets no PressStart until the clock passes that deadline again, about 49.7 days later. At exactly 21 ms the deadline is the largest clock value, so a held press is never reported (`Button.PressStartLateNearWrap`).
- Button.Run: the multi-sample lemmas follow one button through the samples in which it is examined. A button after the reporting one is not examined in that call.
- Menu.Transition: the code has no Active/Inactive result from callbacks. A callback never suppresses navigation, and Enter makes its call even when the item has no child. The model follows the code.
- Integer widths: the `uint8_t` slot index and counter are `uint8`. Signal fields are 16/32/16-bit bit-vectors. Menu counters are unbounded naturals whose range `Menu.Linked` keeps below 256.
