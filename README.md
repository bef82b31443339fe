# qfo focus-to-layer engine, modelled in Dafny

qfo watches which X11 window has input focus and switches a QMK keyboard to the
layer that the user's configuration assigns to that window's class name. This
project models its decision engine and the small layer protocol between the
host and the keyboard firmware, and proves properties of both:

- `prelude.dfy` (module `Prelude`): `Option`, `Result` and the `byte` type.
- `layers.dfy` (module `Layers`, src/layers.rs): the 16 layers as a bounded
  newtype over their discriminants, and `TryFrom<usize>`.
- `qmk_layers.dfy` (module `QmkLayers`, src/qmk/layers.rs): the 32-layer
  variant and `Layer::iter()`.
- `config.dfy` (module `Config`, src/config.rs): the `TooManyLayers` check of
  `Config::from_file`, `Config::into_map` as a method with nested loops, and
  `get_map`. The method is proved equal to the fold `BuildTitleMap`. The lemmas
  then state what a build means in terms of the name lists:
  - success exactly when no name repeats;
  - on success, every name is filed under its list's layer;
  - on failure, the error reports the first repeat in scan order.
- `firmware.dfy` (module `QmkFirmware`, snippet.c): `raw_hid_receive` as a
  method of a class holding the firmware's current layer and the replies sent.
- `keyboard.dfy` (module `Keyboard`, src/keyboard.rs): the two-byte report,
  `code_to_result`, and `Keyboard::set_layer` as a method. The keyboard object
  owns the firmware as its HID device. What the HID library does with one
  exchange is a `Transfer` parameter: delivered, write failed, or read failed.
- `switcher.dfy` (module `Switcher`, src/main.rs): the `last_window_was_custom`
  flag as the field `custom` of a `SwitchPolicy` class. The closure is the
  method `Step`. The window client's callback filter is `OnFocus`. The `loop` of
  `main` is `EventLoop`, run over a finite sequence of focus changes. The pure
  functions `Decide`, `After` and `Trace` specify these methods, and the lemmas
  about runs of classes are proved on those functions. `Settle` and `Codes` give
  the firmware's layer and replies after a run of commands.

The model follows what the code does:

- There is no vendor-marker signal.
- There is no configurable base layer: the base is always `Zero`.
- The capacity check is `layers.len() >= MAX_LAYERS`, so at most 15 name lists.
- `main.rs` calls `config::get_class_rules` and `map.layer(class)`, which
  `src/config.rs` does not define. `map.layer(class)` is modelled as exact
  lookup (`LayerFor`) in the `TitleMap` that `into_map` builds.
- When no configuration file exists, `from_file` writes the default file and
  returns `Config::default()`, which has no name lists. So the first run has no
  rules at all. `FromFile(None)` models this.

## Model

| member | source | states |
|---|---|---|
| `Layers.Ordinal` | src/layers.rs:4-25 | a layer's discriminant (`as usize`) is below `MAX_LAYERS` = 16 |
| `Layers.TryFrom` | src/layers.rs:35-57 | `try_from(n)` succeeds iff `n < 16`; on success the layer's discriminant is `n`; otherwise the error is `LayerParseError` |
| `Layers.TryFromOrdinal` | src/layers.rs:38-54 | every layer converts back from its own discriminant |
| `Layers.OrderIsOrdinalOrder` | src/layers.rs:6-24 | the derived order of layers agrees with the order of their discriminants |
| `Layers.ZeroIsUnique` | src/layers.rs:9-24 | `Zero` is the only layer with discriminant 0 and `Fifteen` the only one with 15 |
| `QmkLayers.Iter` | src/qmk/layers.rs:42-80 | `iter()` yields exactly 32 layers, and the `i`-th one has ordinal `i` |
| `QmkLayers.IterAscending` | src/qmk/layers.rs:4-80 | `iter()` starts at `Zero`, ends at `ThirtyOne` and is strictly ascending |
| `QmkLayers.IterExactlyOnce` | src/qmk/layers.rs:5-39 | every variant occurs in `iter()`, and exactly once (multiset count 1) |
| `Config.FromFile` | src/config.rs:30-55 | a missing file yields the empty default; a parsed list of `>= 16` name lists fails with `TooManyLayers` carrying the actual count; otherwise the lists are kept unchanged, and every accepted config has fewer than 16 lists |
| `Config.IntoMap` | src/config.rs:57-92 | under the `assert!` (fewer than 16 lists) `try_from(i + 1)` never fails, and the nested insert loop returns exactly the fold `BuildTitleMap` |
| `Config.GetMap` | src/config.rs:17-21 | the length check comes before any name is inspected; a too-long list fails with `TooManyLayers`; otherwise the result is that of `into_map` |
| `Config.LayerFor` | src/main.rs:33 | the rule lookup finds a layer exactly when the class name is a key, and that layer is the table's entry |
| `Config.InsertAllSucceeds` | src/config.rs:76-87 | the fold succeeds iff no name is already in the table and no name repeats |
| `Config.InsertAllContents` | src/config.rs:76-90 | a successful fold keeps the old entries, files every name under its entry's layer, holds no other key, and grows by one slot per name (nothing is overwritten) |
| `Config.InsertAllFailure` | src/config.rs:76-83 | a failed fold reports the title, layer and index of the first entry that repeats an earlier or existing name; everything before it was fresh and distinct |
| `Config.EntriesLength` | src/config.rs:72-73 | the scan visits exactly one entry per listed name |
| `Config.EntryAt` | src/config.rs:64-73 | name `j` of list `i` is visited at scan position `Position(i, j)` and is filed under layer `first + i` with index `j` |
| `Config.EntryOrigin` | src/config.rs:64-73 | every visited entry is name `j` of some list `i`, filed under layer `first + i` with index `j` |
| `Config.BuildSucceedsIffUnique` | src/config.rs:72-91 | `into_map` succeeds iff no name occurs twice, in the same list or in two lists |
| `Config.BuildSuccess` | src/config.rs:64-91 | on success, every name of list `i` looks up to layer `i + 1`; the keys are exactly the listed names; unlisted names look up to nothing; `Zero` is never a value; the map size equals the total number of names |
| `Config.BuildFailure` | src/config.rs:76-83 | on failure, the error is `DuplicateTitle(layers[i][j], i + 1, j)` for the first position in scan order whose name occurred earlier; the scan before it holds no repeat |
| `QmkFirmware.ReplyCode` | snippet.c:5-18 | the reply is always `OK` (0) or `INVALID_INDEX` (1), and it is `OK` iff `length > 0 && data[0] < LAYERS` |
| `QmkFirmware.Firmware.constructor` | snippet.c:2 | the firmware has a positive number of layers and starts on layer 0 with no replies sent |
| `QmkFirmware.Firmware.RawHidReceive` | snippet.c:11-21 | an accepted report moves the keyboard to layer `data[0]`; any other report leaves the layer unchanged; `raw_hid_send` is called once per report, and the code it is given is recorded in `replies`; `data` is read only when `length > 0` |
| `Keyboard.Frame` | src/keyboard.rs:44 | the outgoing report is exactly two bytes, `[0, ordinal(layer)]` |
| `Keyboard.CodeToResult` | src/keyboard.rs:56-63 | status 0 decodes to `Ok`, status 1 to `Err(InvalidLayer(1))`; any other status is excluded |
| `Keyboard.ReplyDecodes` | snippet.c:5-8 | the firmware's `OK` decodes to `Ok` on the host and `INVALID_INDEX` to `InvalidLayer(1)` |
| `Keyboard.LayerRoundTrip` | src/keyboard.rs:44-53 | encode a layer, strip the report ID, validate on the keyboard and decode the reply: success iff the keyboard has that layer, and then the keyboard receives exactly that ordinal |
| `Keyboard.SetLayerResult` | src/keyboard.rs:43-54 | `set_layer` succeeds iff the exchange is delivered and the keyboard has the layer; HID failures give `HidError`, and a rejected layer gives `InvalidLayer(1)` |
| `Keyboard.Keyboard.constructor` | src/keyboard.rs:40 | the keyboard wraps the given firmware as its device and has written no report yet |
| `Keyboard.Keyboard.SetLayer` | src/keyboard.rs:43-54 | the result is `SetLayerResult`; the report `[0, ordinal]` is written unless the write fails; a failed write leaves the firmware untouched; otherwise the firmware moves to the layer when it has it, and its reply is `OK` then and `INVALID_INDEX` otherwise, even when the host's read then fails |
| `Switcher.Decide` | src/main.rs:32-52 | the new flag is set iff the class has a rule; a write happens iff the class has a rule or the flag was set; a ruled class writes its own layer, and an unruled one writes `Zero` |
| `Switcher.TraceAt` | src/main.rs:31-53 | over a run of classes, the `k`-th command is the decision on class `k` from the flag the earlier classes left |
| `Switcher.FlagIsLastMatch` | src/main.rs:36 | after at least one class, the flag says whether the last class had a rule |
| `Switcher.RuledClassAlwaysWritten` | src/main.rs:33-35 | a ruled class writes its layer every time, with no deduplication against the previous command |
| `Switcher.QuietWhileUnruled` | src/main.rs:44 | from the cleared flag, unruled classes write nothing and keep the flag cleared |
| `Switcher.StickyReset` | src/main.rs:38-48 | after a ruled class, a run of `k >= 1` unruled classes writes `Zero` exactly once, on the first of them, and leaves the flag cleared |
| `Switcher.SteamThenFirefox` | src/main.rs:31-53 | with the rule `Steam -> 3`, focusing Steam, Firefox, Firefox writes layer 3, then `Zero`, then nothing |
| `Switcher.SwitchPolicy.constructor` | src/main.rs:29 | the policy starts with the flag cleared |
| `Switcher.SwitchPolicy.Step` | src/main.rs:32-52 | the decision's command, if any, is the single `set_layer` call; its result is returned; the firmware is untouched when there is no command or the write fails, and otherwise moves to the command's layer if it has it and sends its reply code, even when the read then fails; the flag takes the decided value only when `set_layer` succeeded, so after a failed read the keyboard has moved but the flag keeps its old value |
| `Switcher.SwitchPolicy.OnFocus` | src/active_window_client/unix.rs:89-98 | a focus change without a readable class name runs no step: nothing is written, the firmware and the flag are unchanged; a readable class runs the closure with the result, reports, firmware state and flag that `Step` gives |
| `Switcher.SettleIsLastWritten` | src/main.rs:31-53 | after a run of commands whose last issued layer exists, the keyboard is on that layer; with no command issued it is where it started |
| `Switcher.CodesMatchFrames` | snippet.c:11-20 | the firmware sends one reply code per written report, and every code is `OK` when every commanded layer exists |
| `Switcher.SwitchPolicy.Handle` | src/main.rs:31-52 | one turn of the loop extends the handled classes, their commands, the reports, the firmware's layer and replies, and the flag by one focus change; on failure, only the failing command's report and firmware effect are added, and only when its write went through |
| `Switcher.SwitchPolicy.EventLoop` | src/main.rs:31-53 | after the loop, the flag is `After` of the classes handled and every layer in their `Trace` exists on the keyboard; on success, the reports written are the frames of that `Trace`, the keyboard's layer is `Settle` of it and its replies are `Codes` of it; the loop stops at the first failed `set_layer`, returns its result with the flag as before that call, and the reports, layer and replies then also reflect the failing command unless its write failed |

## Left out

- Configuration I/O: finding the project directory, `create_dir_all`, writing
  `DEFAULT_CONFIG`, RON deserialisation, and the `Create`/`Parse`/`NoHome`
  errors. `FromFile` takes the already-parsed name lists, or `None` when no file
  exists. The `anyhow` context that `get_map` adds to errors is not modelled.
- The X11 window client (connection, atom interning, event subscription,
  `WM_CLASS` replies, UTF-8 checking). A focus change is either a class name or
  `Unresolved`. The client's own ways of ending the loop are not modelled: the
  X11 errors returned by `wait_for_event()?`, `.reply()?` and `WmClass::get(..)?`
  (src/active_window_client/unix.rs:66, 81 and 89), which `?` in `main` passes
  on, and the `expect` panic at src/active_window_client/unix.rs:83-85.
- `Keyboard::new` device discovery (taking the second matching HID device) and
  `KeyboardError::NotFound`.
- Keyboard.Keyboard.SetLayer: the HID library always transfers whole reports in
  this model. The `assert_eq!` panics of the source for a short write or a short
  read therefore cannot happen here and are not modelled.
- The transport: the leading `0` of the report is taken to be the HID report ID,
  which the transport consumes before `raw_hid_receive` sees the data.
- QMK internals: `layer_move` is modelled as setting the current layer, and
  `LAYERS` (computed from `sizeof(keymaps)`) is a positive parameter. The
  firmware's starting layer is taken to be 0.
- `raw_hid_send(&result, length)` sends `length` bytes from a one-byte variable.
  The model records the code each call is given, not the bytes sent: the
  over-read for `length > 1` is not modelled, and a zero-length report gets a
  zero-length send that the model still records as a code.
- Switcher.SwitchPolicy.EventLoop: `main` loops forever. The model runs the loop
  over a finite sequence of focus changes, with one HID outcome per change.
- Logging (`stderrlog`, `info!`), the `thiserror` display strings, and the
  top-level `Error` wrapper of `main.rs`.
- Vendor markers and a configurable base layer do not exist in this code and are
  not modelled.
