# cakebar core, modelled in Dafny

cakebar is a GTK status bar for X11 window managers. This project models the parts of it that make decisions, and proves what they promise:

- **The system tray manager** (`src/tray/manager.rs`). It claims the `_NET_SYSTEM_TRAY_S0` selection and docks icons that ask to be docked. It lays the icons out in a row, one icon size per slot, and resizes, maps or unmaps the tray window to fit. When it loses the selection, it hands every icon back to the root window.
  - `TrayProtocol` models the manager as functions over its state. The X connection is an append-only log of the requests sent. The two replies the manager reads back, the selection owner after a claim and a window's geometry, are inputs.
  - `TrayManager` is the manager as a class whose methods update its fields in place. Each method is proved to follow the matching function.
- **The EWMH workspace list** (`src/wm/xcb/workspaces.rs`, module `Workspaces`). There is one numbered workspace per desktop name, placed on the monitor at the desktop's viewport and stably sorted by monitor.
- **Window-title truncation** (`src/components/window.rs`, module `WindowTitle`, over the UTF-8 model in `Utf8`).
- **The IPC listener** (`src/wm/ipc/listen.rs`, module `IpcListen`). It decodes the raw client buffer, replies to the client, and turns `show`/`hide` into actions on whole bars or on components.
- **The bspwm listener** (`src/wm/bsp/listen.rs`, module `BspListen`). A byte-at-a-time newline framing loop feeds a channel, and a filter keeps the `W` report lines.
- **Component plumbing** (`src/components/mod.rs`, module `Components`). This covers `get_alignment`, the expand and overlay choices of `init_widget`, and the `type` dispatch of `load_component`.

`Wrappers` (an `Option` type) and `Seqs` (no-duplicates and subsequence facts) are shared helpers.

`finish` (src/tray/manager.rs:337-356) hands every icon back to the root window but never clears `children`. `TrayProtocol.FinishReturnsIcons` states that the row is kept.

`adopt` (src/tray/manager.rs:275-286) neither checks whether the window is already docked nor waits for the selection claim. Docking the same window twice leaves it in the row twice, with its last move at slot 1, so the slots are no longer contiguous (`TrayProtocol.DuplicateDock`). A dock request that arrives before the claim is acted on at timestamp 0 and maps the tray (`TrayProtocol.DockBeforeClaim`). The slot invariant `TrayProtocol.Inv` is therefore stated for rows without duplicates that do not contain the tray window.

## Model

| member | source | states |
|---|---|---|
| TrayProtocol.StartupOutcome | src/tray/mod.rs:48-79 | when the selection already has an owner the tray exits with code 11 before handling any event; otherwise the result is that of the event loop from the initial state, and the invariant holds at its end |
| TrayProtocol.ClaimBlocksSecondTray | src/tray/manager.rs:247-273 | once a tray's claim succeeds the selection is no longer available, so a second tray started against that owner exits with code 11 |
| TrayProtocol.TakeSelectionOutcome | src/tray/manager.rs:253-273 | the claim succeeds iff the re-queried owner is the tray window; only then is the timestamp recorded and MANAGER sent to the root with data `[time, selection, window, 0, 0]`; the icons and mode are untouched |
| TrayProtocol.ForceSizeOnlyWhenNeeded | src/tray/manager.rs:300-312 | a resize to icon size × icon size is sent iff the dimensions differ from that, and it is the only request |
| TrayProtocol.ShownAfterReposition | src/tray/manager.rs:314-335 | after `reposition` the tray window is mapped iff its width, icons × icon size, is positive |
| TrayProtocol.AdoptPlacesAtEnd | src/tray/manager.rs:275-286 | docking appends the window to the row, reparented into the tray at x = old count × icon size and mapped; every other window keeps its position, parent and visibility |
| TrayProtocol.WithoutMembers | src/tray/manager.rs:289 | `retain` keeps a window iff it was docked and is not the one being forgotten |
| TrayProtocol.WithoutMultiset | src/tray/manager.rs:289 | `retain` removes every occurrence of the window and nothing else, counted with multiplicity |
| TrayProtocol.WithoutAbsent | src/tray/manager.rs:289 | forgetting a window that is not docked leaves the row unchanged |
| TrayProtocol.WithoutKeepsOrder | src/tray/manager.rs:289 | the remaining icons keep their relative order |
| TrayProtocol.WithoutNoDup | src/tray/manager.rs:289 | `retain` on a row without duplicates leaves a row without duplicates |
| TrayProtocol.SlotRequestsPlace | src/tray/manager.rs:290-296 | the re-layout loop leaves icon i of a duplicate-free row at x = i × icon size |
| TrayProtocol.ForgetRelaysOut | src/tray/manager.rs:288-298 | undocking leaves the row `retain` computes and maps the tray iff the new width is positive; when the remaining row has no duplicates and does not contain the tray window, its icons are at contiguous slots 0..n-1 |
| TrayProtocol.DuplicateDock | src/tray/manager.rs:275-286 | docking the same window twice keeps both entries, its last move is to slot 1, and the slots are no longer aligned |
| TrayProtocol.DockBeforeClaim | src/tray/manager.rs:378-386 | a dock request handled before the selection is claimed is accepted at timestamp 0 and maps the tray |
| TrayProtocol.ReleaseRequestsPlace | src/tray/manager.rs:343-350 | the shutdown loop leaves every docked icon reparented to the root and unmapped |
| TrayProtocol.FinishReturnsIcons | src/tray/manager.rs:337-356 | after `finish` the manager is finishing, every icon is back on the root and unmapped, the tray is not mapped, and the row itself is kept |
| TrayProtocol.FinishDestroysTray | src/tray/manager.rs:351-355 | `finish` only appends requests, and those destroy the tray window exactly once |
| TrayProtocol.OpcodeDispatch | src/tray/manager.rs:378-395 | a tray-opcode client message with opcode 0 docks `data[2]`; opcodes 1 and 2 change nothing; any other opcode is the `unreachable!` panic; other message types are ignored |
| TrayProtocol.NormalVerdicts | src/tray/manager.rs:367-377 | PropertyNotify is acted on only while the timestamp is 0; a failed claim exits with code 11; no other normal-mode event exits, and only a bad opcode panics |
| TrayProtocol.LifecycleEvents | src/tray/manager.rs:396-418 | ReparentNotify away from the tray and DestroyNotify forget the window; SelectionClear finishes; other events change nothing |
| TrayProtocol.FinishingIgnoresAll | src/tray/manager.rs:434-442 | once finishing, no event changes the state, and only the tray window's own DestroyNotify returns exit code 0 |
| TrayProtocol.InitialInv | src/tray/manager.rs:24-42 | a new manager satisfies the layout invariant |
| TrayProtocol.StepKeepsInv | src/tray/manager.rs:358-432 | every event keeps the invariant: in normal mode the tray is mapped iff its width is positive, and icons of a duplicate-free row sit at slot × icon size; once finishing, the tray is never mapped |
| TrayProtocol.AdoptKeepsInv | src/tray/manager.rs:275-286 | docking keeps the invariant |
| TrayProtocol.ForgetKeepsInv | src/tray/manager.rs:288-298 | undocking keeps the invariant |
| TrayProtocol.RunKeepsInv | src/tray/mod.rs:74-79 | whatever the event sequence, the invariant holds where the event loop stops |
| TrayProtocol.ScenarioDockTwoForgetOne | src/tray/manager.rs:275-335 | with icon size 24: two docked icons sit at x = 0 and 24 in a 48-pixel tray; undocking the first moves the second to x = 0 in a 24-pixel tray that stays mapped; undocking both unmaps the tray |
| TrayProtocol.ForgetFirstOfTwo | src/tray/manager.rs:288-335 | undocking the first of two icons (size 24) leaves the second at x = 0, resizes the tray to 24 pixels and keeps it mapped; undocking the second too unmaps it |
| TrayProtocol.ForgetFirstLog | src/tray/manager.rs:288-335 | undocking the first of two icons sends exactly: move the second to x = 0, set the tray geometry to width 24, map the tray |
| TrayProtocol.ForgetOnlyLog | src/tray/manager.rs:288-335 | undocking the only icon empties the row and sends exactly one request, the unmap of the tray |
| TrayManager.Manager.constructor | src/tray/manager.rs:24-42 | a new manager has no icons, timestamp 0 and is not finishing |
| TrayManager.Manager.TakeSelection | src/tray/manager.rs:253-273 | the new state and the result are those of `TrayProtocol.TakeSelection`; the icons are unchanged |
| TrayManager.Manager.ForceSize | src/tray/manager.rs:300-312 | appends exactly the resize that `ForceSizeRequests` gives for the known or queried dimensions |
| TrayManager.Manager.Reposition | src/tray/manager.rs:314-335 | appends the tray geometry and map (or unmap) requests; afterwards the tray is mapped iff its width is positive |
| TrayManager.Manager.Adopt | src/tray/manager.rs:275-286 | the new state is `TrayProtocol.Adopt` of the old one |
| TrayManager.Manager.Forget | src/tray/manager.rs:288-298 | the new state is `TrayProtocol.Forget` of the old one; the loop sends one x move per remaining icon |
| TrayManager.Manager.Finish | src/tray/manager.rs:337-356 | the new state is `TrayProtocol.Finish` of the old one |
| TrayManager.Manager.HandleEvent | src/tray/manager.rs:358-365 | state and verdict are those of `TrayProtocol.Step` |
| TrayManager.Manager.HandleEventNormal | src/tray/manager.rs:367-432 | state and verdict are those of `TrayProtocol.NormalStep` |
| TrayManager.Manager.HandleEventFinishing | src/tray/manager.rs:434-442 | the verdict is exit code 0 for the tray's own DestroyNotify and `None` otherwise |
| Workspaces.FindMonitor | src/wm/xcb/workspaces.rs:34-37 | the index found is the first monitor whose origin is the viewport; `None` iff no monitor is there |
| Workspaces.MonitorFor | src/wm/xcb/workspaces.rs:26-37 | a desktop goes to the first monitor at its viewport, otherwise to index 0 with the first monitor's output, or "[unknown]" when there are no monitors |
| Workspaces.GetWorkspaces | src/wm/xcb/workspaces.rs:4-58 | the loop builds the per-desktop tuples; the result is their stable sort by monitor, numbered from 1, with one workspace per desktop name |
| Workspaces.WorkspaceListShape | src/wm/xcb/workspaces.rs:29-57 | one workspace per desktop; the names are a permutation of the desktop names; numbers are 1..n in order; visible iff focused; never urgent; with no monitors every output is "[unknown]" |
| Workspaces.WorkspaceOrigin | src/wm/xcb/workspaces.rs:30-55 | each workspace comes from one desktop: it has that desktop's name, the output of the monitor at its viewport (or the first monitor, or `[unknown]`), and is focused iff that desktop is current |
| Workspaces.WorkspaceListFocus | src/wm/xcb/workspaces.rs:29-57 | a workspace is focused only if it is the desktop at the current index; that desktop, when it exists, is focused; no two workspaces are focused |
| Workspaces.DesktopFocus | src/wm/xcb/workspaces.rs:30-31 | only the desktop at the current index is focused, and it occurs once |
| Workspaces.SortByMonitorIsStableSort | src/wm/xcb/workspaces.rs:43 | the sort is ascending by monitor index, a permutation, and stable: on each monitor the entries keep their input order |
| Workspaces.SortPermutes | src/wm/xcb/workspaces.rs:43 | sorting is a permutation of the tuples |
| Workspaces.SortSorted | src/wm/xcb/workspaces.rs:43 | the sorted tuples are in ascending monitor order |
| Workspaces.SortStable | src/wm/xcb/workspaces.rs:43 | on each monitor the sorted tuples keep their input order |
| Workspaces.SortNames | src/wm/xcb/workspaces.rs:43 | sorting permutes the desktop names |
| Workspaces.InsertOnMonitor | src/wm/xcb/workspaces.rs:43 | inserting an entry appends it to its own monitor's entries and leaves the other monitors' entries unchanged |
| Utf8.CodePoint | src/wm/bsp/listen.rs:26 | a well-formed UTF-8 sequence (Table 3-7 of the Unicode Standard) decodes to a scalar value, never a surrogate or above U+10FFFF, and is not overlong |
| Utf8.FromUtf8Encode | src/components/window.rs:22 | decoding the UTF-8 encoding of a string gives the string back |
| Utf8.EncodeFromUtf8 | src/wm/bsp/listen.rs:26 | every byte sequence `String::from_utf8` accepts is the encoding of the string it returns |
| Utf8.FirstChar | src/wm/bsp/listen.rs:45 | the first decoded character equals the first byte when that byte is ASCII, and is non-ASCII otherwise |
| WindowTitle.TruncLimit | src/components/window.rs:15 | the limit defaults to 100; a negative configured value wraps through the `as usize` cast to at least 2^63 |
| WindowTitle.KeptNone | src/components/window.rs:23 | once the byte offset passes the limit, no later character is kept |
| WindowTitle.KeptPrefix | src/components/window.rs:21-26 | the kept characters are a prefix of the title: exactly those whose byte offset is within the limit |
| WindowTitle.TruncateSpec | src/components/window.rs:20-30 | a title of at most `trunc` characters is shown unchanged; a longer one is shown as the characters at byte offsets 0..=trunc (between 1 and trunc+1 of them) followed by "…" |
| WindowTitle.TruncateAscii | src/components/window.rs:21-27 | an ASCII title longer than `trunc` keeps its first trunc+1 characters, then "…" |
| WindowTitle.TruncateMultiByte | src/components/window.rs:21-27 | two-byte characters count double: "ééé" truncated at 2 shows "éé…" |
| IpcListen.BarsFromSelectors | src/wm/ipc/listen.rs:75-86 | every bar returned is an existing bar named by an id selector; there are at most as many bars as selectors, and exactly as many iff every selector is the id of an existing bar |
| IpcListen.BarsInSelectorOrder | src/wm/ipc/listen.rs:76-85 | the bars keep the selectors' order |
| IpcListen.BarsComplete | src/wm/ipc/listen.rs:77-83 | a name is returned iff it is a bar name and some selector is its id |
| IpcListen.ShowHideDecision | src/wm/ipc/listen.rs:46-67 | `show`/`hide` act on whole bars iff every selector is the id of an existing bar, and on components otherwise; `show` passes true and `hide` false |
| IpcListen.FilledBuffer | src/wm/ipc/listen.rs:89-90 | the buffer is always 256 bytes |
| IpcListen.DecodeBuffer | src/wm/ipc/listen.rs:92-96 | the decoded input is never longer than the buffer |
| IpcListen.DecodeBufferChars | src/wm/ipc/listen.rs:92-96 | the decoded input has no NUL and only one-byte characters |
| IpcListen.DecodeDropsZeros | src/wm/ipc/listen.rs:92-96 | decoding drops exactly the zero bytes and keeps the others in order, one character per byte |
| IpcListen.ReceivedRoundTrip | src/wm/ipc/listen.rs:89-96 | a message of at most 256 bytes without zero bytes reaches the parser intact; a failed read gives the empty input |
| IpcListen.ForwardOnlyParsed | src/wm/ipc/listen.rs:98-110 | the (input, command) pair is forwarded and the command echoed iff the input parses; otherwise nothing is forwarded and the reply starts "e:cannot parse " |
| BspListen.ReadLoop | src/wm/bsp/listen.rs:21-31 | the loop sends the decoded framed messages of the bytes read, in order, and leaves the unfinished message pending |
| BspListen.FramesStep | src/wm/bsp/listen.rs:25-29 | a newline byte emits the pending message and clears it; any other byte extends the pending message |
| BspListen.ReaderThread | src/wm/bsp/listen.rs:16-38 | a failed connection sends the error; otherwise the framed messages are sent |
| BspListen.FramesRoundTrip | src/wm/bsp/listen.rs:21-31 | the messages, each followed by a newline, then the pending bytes, are exactly the bytes read; no message contains a newline |
| BspListen.FramesCount | src/wm/bsp/listen.rs:25-27 | one message is emitted per newline byte read |
| BspListen.FramesUnique | src/wm/bsp/listen.rs:21-31 | framing is the only split into newline-free messages and a newline-free rest |
| BspListen.ConsecutiveNewlines | src/wm/bsp/listen.rs:25-27 | two newlines in a row emit an empty message and leave nothing pending |
| BspListen.ReportFilter | src/wm/bsp/listen.rs:41-52 | a message becomes a workspace report iff it is valid UTF-8 whose first byte is 'W', and the report is the message decoded without loss |
| BspListen.RestartOnlyOnError | src/wm/bsp/listen.rs:54-61 | only a connection error restarts the listener |
| Components.AlignmentRoundTrip | src/components/mod.rs:105-113 | each alignment other than Baseline has a config name that maps back to it |
| Components.AlignmentNames | src/components/mod.rs:105-113 | "start", "end", "center", "centre" and "fill" give Start, End, Center and Fill; every other string gives Baseline |
| Components.WidgetAlignment | src/components/mod.rs:70-93 | an axis gets an alignment iff its key is a string other than "void"; it expands iff that holds and the widget is not fixed; the style class is added unless it is absent or "void" |
| Components.WidgetPlacement | src/components/mod.rs:78-102 | a fixed widget goes on the overlay, passing input through unless `pass-through` is false; any other widget goes in the container; without a `fixed` key a widget is not fixed |
| Components.LoadComponentDispatch | src/components/mod.rs:32-57 | only the type "backlight" loads a component; a missing or unknown type goes to the `void` handler |

## Left out

- `Manager::create` (src/tray/manager.rs:44-233) is a fixed sequence of window-property writes with no state and no decisions.
- The tray's process loop in src/tray/mod.rs is left out. It multiplexes IPC messages, X events, signals and a fullscreen timer, and it calls `hide`, `show`, `handle_ipc_message` and a `Manager::new` of another signature, none of which exist in manager.rs. Only the startup check and the X-event path are modelled, by `TrayProtocol.Startup` and `TrayProtocol.Run`. The `create` call between the two is not modelled (see below).
- TrayManager.Manager.IsSelectionAvailable: `is_selection_available` (src/tray/manager.rs:247-251) is one comparison of the owner with the `None` window, so it has no row of its own. What the check decides is stated by `TrayProtocol.StartupOutcome` and `TrayProtocol.ClaimBlocksSecondTray`.
- Connection flushes and the two queries (`get_selection_owner`, `get_geometry`) are not logged as requests. Their replies are inputs. The `unwrap` panics on a failed reply are not modelled.
- TrayManager.Manager.Adopt: it requires the new icon's offset to fit the `i16` cast and the new width to fit `u16`. It does not model the wrap-around or overflow panic of `children.len() as u16 * icon_size`.
- TrayProtocol.ForgetRelaysOut: contiguous slots are promised only when the remaining row has no duplicates and does not contain the tray window. For a duplicated window the re-layout loop moves it once per entry and the last move wins, so no slot layout can be promised (`TrayProtocol.DuplicateDock`).
- TrayProtocol.RunKeepsInv: the protocol functions use unbounded integers, so its promise for any event sequence holds of the source only while `children.len() * icon_size` fits in a `u16` and each offset in an `i16`.
- TrayManager.Manager.Reposition: it requires the width to fit in `u16` (`Valid`) and does not model its wrap-around.
- TrayManager.Manager.HandleEvent: like `HandleEventNormal`, it requires room for one more icon only for a dock request in normal mode, the one event that can overflow the `u16` width.
- TrayManager.Manager.HandleEventNormal: it requires room for one more icon only for a dock request, because `adopt` would overflow `children.len() as u16 * icon_size`. The raw response-type decoding and `cast_event` are replaced by a closed `Event` type. A client message without the synthetic-event flag (0x80) is an `OtherEvent`.
- The `unreachable!` on an unknown opcode is modelled as the `Panic` verdict, which stops the run. Panic unwinding is not modelled.
- The screen (`setup.roots().nth(screen)`) is reduced to its root window in the configuration.
- Workspaces.GetWorkspaces: the workspace number `i as i32 + 1` is an unbounded integer, so its `i32` overflow is not modelled. The EWMH replies are inputs, with `None` for a reply error.
- The standard library's `sort_by` is specified as an insertion sort. `Workspaces.SortByMonitorIsStableSort` proves the properties that characterise a stable sort by monitor index.
- The `Workspace` struct of `crate::wm::workspace` is not part of this model. Its fields are taken from the struct literal in src/wm/xcb/workspaces.rs:48-55.
- The window component's label, its event listener registration and non-string events are left out. `ConfigGroup::get_int_or` is not part of this model; it is assumed to yield an `i64`.
- `ipc::parser::parse_message`, the `Display` formatting of a command and the `Debug` formatting of the input are not part of this model. They are function parameters of `IpcListen.HandleStream`.
- The `Command` enum of `ipc::commands` is not part of this model. Its variants other than `ReloadTheme`, `ReloadConfig`, `Show` and `Hide` are grouped as `Other`.
- `Selector::get_name` is not part of this model; it is assumed to return the selector's name.
- Sockets, threads, channels and the GTK timeouts of both listeners are left out. So are the effects of `display_bars`, `display_components`, `load_theme` and `reload_config`.
- The bspwm reader loop never ends. It is modelled over a finite sequence of read results, and each successful read delivers exactly one byte. A read returning `Ok(0)` would re-push the stale byte; that case is not modelled.
- The `bspc` subscription write and `bsp::parse_workspaces` (src/wm/bsp.rs) are not part of this model. The report string handed to the parser is the output.
- The GTK calls of `init_widget` (`set_name`, `add_class`, `set_halign`, `add_overlay`, ...) are modelled as the `WidgetSetup` record they produce. `ConfigGroup` is not part of this model; `get_str_or` and `get_bool_or` are assumed to return the value stored under the key when it has the right type, and the default otherwise.
- The Backlight component itself and the commented-out component types are left out.
