/** The system tray manager of src/tray/manager.rs, as pure functions over its
    state.  The X connection is an append-only log of the requests the manager
    sends; the two replies the manager reads back (the selection owner after a
    claim and a window's geometry) are inputs.  The class in TrayManager is
    proved to follow these functions step by step. */
module TrayProtocol {
  import opened Wrappers
  import opened Seqs

  type U32 = x: int | 0 <= x < 0x1_0000_0000
  type Window = U32
  type Atom = U32
  type Timestamp = U32

  /** The five 32-bit data words of a format-32 client message. */
  type Data32 = s: seq<U32> | |s| == 5 witness [0, 0, 0, 0, 0]

  /** The `None` window id of the X protocol. */
  const NoWindow: Window := 0

  /** Opcodes of the tray protocol's "Docking a tray icon" client messages. */
  const RequestDock: U32 := 0
  const BeginMessage: U32 := 1
  const CancelMessage: U32 := 2

  /** Process exit codes of the tray (src/tray/mod.rs). */
  const ExitFailedConnect: int := 10
  const ExitFailedSelect: int := 11

  /** The fixed anchor and height the tray window is configured to. */
  const TrayX: int := 140
  const TrayY: int := 3
  const TrayHeight: nat := 20

  datatype EventMask = NoEvent | StructureNotify

  /** The requests the manager writes to the X connection. */
  datatype Request =
    | ChangeEventMask(window: Window, mask: EventMask)
    | ReparentWindow(window: Window, parent: Window, x: int, y: int)
    | MapWindow(window: Window)
    | UnmapWindow(window: Window)
    | ConfigureX(window: Window, x: int)
    | ConfigureSize(window: Window, width: nat, height: nat)
    | ConfigureGeometry(window: Window, x: int, y: int, width: nat, height: nat)
    | SetSelectionOwner(window: Window, selection: Atom, time: Timestamp)
      /** The MANAGER client message (format 32) sent to the root window. */
    | SendManager(destination: Window, messageType: Atom, data: seq<U32>)
    | DestroyWindow(window: Window)

  /** The events the manager distinguishes, decoded once from the raw event. */
  datatype Event =
    | PropertyNotify(time: Timestamp)
    | ClientMessage(messageType: Atom, data: Data32)
    | ReparentNotify(window: Window, parent: Window)
    | DestroyNotify(window: Window)
    | ConfigureNotify(window: Window, width: nat, height: nat)
    | SelectionClear
    | OtherEvent

  /** What `handle_event` tells the run loop: carry on (`None`), exit with a
      code (`Some(code)`), or the `unreachable!` panic. */
  datatype Verdict = Continue | Exit(code: int) | Panic

  /** The manager's fixed configuration: icon size, its own window, the
      screen's root and the interned atoms it uses. */
  datatype TrayConfig = TrayConfig(
    iconSize: nat,
    window: Window,
    root: Window,
    selection: Atom,
    managerAtom: Atom,
    opcodeAtom: Atom)

  /** The manager's mutable state and everything sent on the connection. */
  datatype TrayState = TrayState(
    children: seq<Window>,
    timestamp: Timestamp,
    finishing: bool,
    log: seq<Request>)

  function Initial(): TrayState {
    TrayState([], 0, false, [])
  }

  // ---------------------------------------------------------------------
  // Operations

  /** `is_selection_available`: nobody owns the selection. */
  function SelectionAvailable(owner: Window): (r: bool)
    ensures r <==> owner == NoWindow
  {
    owner == NoWindow
  }

  /** `take_selection`: claim the selection, then trust the re-queried
      `owner`; broadcast MANAGER only when the claim stuck. */
  function TakeSelection(cfg: TrayConfig, s: TrayState, time: Timestamp, owner: Window): (TrayState, bool)
  {
    var claimed := s.log + [SetSelectionOwner(cfg.window, cfg.selection, time)];
    if owner == cfg.window then
      var announce := SendManager(cfg.root, cfg.managerAtom, [time, cfg.selection, cfg.window, 0, 0]);
      (s.(timestamp := time, log := claimed + [announce]), true)
    else
      (s.(log := claimed), false)
  }

  /** `force_size` once its dimensions are known. */
  function ForceSizeRequests(cfg: TrayConfig, w: Window, dims: (nat, nat)): seq<Request> {
    if dims != (cfg.iconSize, cfg.iconSize) then [ConfigureSize(w, cfg.iconSize, cfg.iconSize)] else []
  }

  /** `reposition` for a tray holding `n` icons. */
  function RepositionRequests(cfg: TrayConfig, n: nat): seq<Request> {
    var width := n * cfg.iconSize;
    if width > 0 then
      [ConfigureGeometry(cfg.window, TrayX, TrayY, width, TrayHeight), MapWindow(cfg.window)]
    else
      [UnmapWindow(cfg.window)]
  }

  /** `adopt`: dock `w` in the next slot; `geometry` is the reply to the
      geometry query made by `force_size(w, None)`. */
  function Adopt(cfg: TrayConfig, s: TrayState, w: Window, geometry: (nat, nat)): TrayState {
    var docked := [ChangeEventMask(w, StructureNotify),
                   ReparentWindow(w, cfg.window, |s.children| * cfg.iconSize, 0),
                   MapWindow(w)]
                  + ForceSizeRequests(cfg, w, geometry);
    s.(children := s.children + [w],
       log := s.log + docked + RepositionRequests(cfg, |s.children| + 1))
  }

  /** `children.retain(|c| *c != w)`. */
  function Without(cs: seq<Window>, w: Window): seq<Window> {
    if cs == [] then []
    else (if cs[0] == w then [] else [cs[0]]) + Without(cs[1..], w)
  }

  /** The re-layout loop of `forget`: slot i moves to x = i * iconSize. */
  function SlotRequests(iconSize: nat, cs: seq<Window>): seq<Request>
    decreases |cs|
  {
    if cs == [] then []
    else SlotRequests(iconSize, cs[..|cs| - 1]) + [ConfigureX(cs[|cs| - 1], (|cs| - 1) * iconSize)]
  }

  /** `forget`: drop `w`, re-lay out the others, resize the tray. */
  function Forget(cfg: TrayConfig, s: TrayState, w: Window): TrayState {
    var kept := Without(s.children, w);
    s.(children := kept,
       log := s.log + SlotRequests(cfg.iconSize, kept) + RepositionRequests(cfg, |kept|))
  }

  /** The loop of `finish` handing each icon back to the root window. */
  function ReleaseRequests(root: Window, cs: seq<Window>): seq<Request>
    decreases |cs|
  {
    if cs == [] then []
    else
      var c := cs[|cs| - 1];
      ReleaseRequests(root, cs[..|cs| - 1])
        + [ChangeEventMask(c, NoEvent), UnmapWindow(c), ReparentWindow(c, root, 0, 0)]
  }

  /** `finish`: release every icon, then destroy the tray window. */
  function Finish(cfg: TrayConfig, s: TrayState): TrayState {
    s.(finishing := true,
       log := s.log + ReleaseRequests(cfg.root, s.children)
              + [ChangeEventMask(cfg.window, StructureNotify), DestroyWindow(cfg.window)])
  }

  /** `handle_event_normal`; `owner` and `geometry` are the replies the
      handler would read if it asked. */
  function NormalStep(cfg: TrayConfig, s: TrayState, ev: Event, owner: Window, geometry: (nat, nat)): (TrayState, Verdict)
  {
    match ev
    case PropertyNotify(time) =>
      if s.timestamp == 0 then
        var (s', ok) := TakeSelection(cfg, s, time, owner);
        (s', if ok then Continue else Exit(ExitFailedSelect))
      else (s, Continue)
    case ClientMessage(messageType, data) =>
      if messageType != cfg.opcodeAtom then (s, Continue)
      else if data[1] == RequestDock then (Adopt(cfg, s, data[2], geometry), Continue)
      else if data[1] == BeginMessage || data[1] == CancelMessage then (s, Continue)
      else (s, Panic)
    case ReparentNotify(w, parent) =>
      if parent != cfg.window then (Forget(cfg, s, w), Continue) else (s, Continue)
    case DestroyNotify(w) => (Forget(cfg, s, w), Continue)
    case ConfigureNotify(w, width, height) =>
      (s.(log := s.log + ForceSizeRequests(cfg, w, (width, height))), Continue)
    case SelectionClear => (Finish(cfg, s), Continue)
    case OtherEvent => (s, Continue)
  }

  /** `handle_event_finishing`: only the tray window's own destruction ends the run. */
  function FinishingVerdict(cfg: TrayConfig, ev: Event): Verdict {
    if ev.DestroyNotify? && ev.window == cfg.window then Exit(0) else Continue
  }

  /** `handle_event`. */
  function Step(cfg: TrayConfig, s: TrayState, ev: Event, owner: Window, geometry: (nat, nat)): (TrayState, Verdict)
  {
    if s.finishing then (s, FinishingVerdict(cfg, ev)) else NormalStep(cfg, s, ev, owner, geometry)
  }

  /** One event together with the replies its handling reads. */
  datatype Input = Input(event: Event, owner: Window, geometry: (nat, nat))

  /** The run loop of src/tray/mod.rs fed a sequence of X events: it stops
      at the first verdict other than Continue. */
  function Run(cfg: TrayConfig, s: TrayState, inputs: seq<Input>): (TrayState, Verdict)
    decreases |inputs|
  {
    if inputs == [] then (s, Continue)
    else
      var (s', v) := Step(cfg, s, inputs[0].event, inputs[0].owner, inputs[0].geometry);
      if v == Continue then Run(cfg, s', inputs[1..]) else (s', v)
  }

  /** The start of the tray process (src/tray/mod.rs): when another client
      already owns the selection (`owner`, as `is_selection_available` reads
      it) the process exits with code 11 before handling any event;
      otherwise the event loop runs from a new manager. */
  function Startup(cfg: TrayConfig, owner: Window, inputs: seq<Input>): (TrayState, Verdict) {
    if !SelectionAvailable(owner) then (Initial(), Exit(ExitFailedSelect))
    else Run(cfg, Initial(), inputs)
  }

  // ---------------------------------------------------------------------
  // What the log says about one window

  /** The aspects of a window that a request can set. */
  datatype Aspect = Visibility | XOffset | Parent

  /** What request `r` sets `aspect` of window `w` to (mapped = 1, unmapped or
      destroyed = 0), if anything. */
  function Effect(r: Request, w: Window, aspect: Aspect): Option<int> {
    match aspect
    case Visibility =>
      (match r
       case MapWindow(v) => if v == w then Some(1) else None
       case UnmapWindow(v) => if v == w then Some(0) else None
       case DestroyWindow(v) => if v == w then Some(0) else None
       case _ => None)
    case XOffset =>
      (match r
       case ReparentWindow(v, _, x, _) => if v == w then Some(x) else None
       case ConfigureX(v, x) => if v == w then Some(x) else None
       case ConfigureGeometry(v, x, _, _, _) => if v == w then Some(x) else None
       case _ => None)
    case Parent =>
      (match r
       case ReparentWindow(v, p, _, _) => if v == w then Some(p) else None
       case _ => None)
  }

  /** The value the last request touching `aspect` of `w` left it with. */
  function Latest(log: seq<Request>, w: Window, aspect: Aspect): Option<int>
    decreases |log|
  {
    if log == [] then None
    else if Effect(log[|log| - 1], w, aspect).Some? then Effect(log[|log| - 1], w, aspect)
    else Latest(log[..|log| - 1], w, aspect)
  }

  /** Window `w` is mapped after the requests in `log`. */
  ghost predicate Shown(log: seq<Request>, w: Window) {
    Latest(log, w, Visibility) == Some(1)
  }

  /** Every docked icon sits at x = slot index * icon size. */
  ghost predicate SlotsAligned(cfg: TrayConfig, s: TrayState) {
    forall i :: 0 <= i < |s.children| ==> Latest(s.log, s.children[i], XOffset) == Some(i * cfg.iconSize)
  }

  /** The invariants the manager keeps: in normal mode the tray is mapped
      exactly when it is wider than zero, and (as long as no window is docked
      twice) slots are contiguous; once finishing, the tray is never mapped. */
  ghost predicate Inv(cfg: TrayConfig, s: TrayState) {
    && (!s.finishing ==> (Shown(s.log, cfg.window) <==> |s.children| * cfg.iconSize > 0))
    && (!s.finishing && NoDup(s.children) && cfg.window !in s.children ==> SlotsAligned(cfg, s))
    && (s.finishing ==> !Shown(s.log, cfg.window))
  }

  // ---------------------------------------------------------------------
  // Lemmas about the log

  lemma {:induction false} LatestConcat(a: seq<Request>, b: seq<Request>, w: Window, aspect: Aspect)
    ensures Latest(a + b, w, aspect) ==
            if Latest(b, w, aspect).Some? then Latest(b, w, aspect) else Latest(a, w, aspect)
    decreases |b|
  {
    if b == [] {
      assert a + b == a;
    } else {
      var b' := b[..|b| - 1];
      assert (a + b)[..|a + b| - 1] == a + b';
      assert (a + b)[|a + b| - 1] == b[|b| - 1];
      LatestConcat(a, b', w, aspect);
    }
  }

  /** Requests that do not touch `aspect` of `w` leave it as it was. */
  lemma LatestUntouched(a: seq<Request>, b: seq<Request>, w: Window, aspect: Aspect)
    requires forall k :: 0 <= k < |b| ==> Effect(b[k], w, aspect) == None
    ensures Latest(a + b, w, aspect) == Latest(a, w, aspect)
  {
    LatestNone(b, w, aspect);
    LatestConcat(a, b, w, aspect);
  }

  lemma {:induction false} LatestNone(b: seq<Request>, w: Window, aspect: Aspect)
    requires forall k :: 0 <= k < |b| ==> Effect(b[k], w, aspect) == None
    ensures Latest(b, w, aspect) == None
    decreases |b|
  {
    if b != [] {
      LatestNone(b[..|b| - 1], w, aspect);
    }
  }

  /** After `reposition` the tray is mapped iff its width is positive. */
  lemma ShownAfterReposition(cfg: TrayConfig, log: seq<Request>, n: nat)
    ensures Shown(log + RepositionRequests(cfg, n), cfg.window) <==> n * cfg.iconSize > 0
  {
    LatestConcat(log, RepositionRequests(cfg, n), cfg.window, Visibility);
  }

  /** Re-laying out a duplicate-free row puts each icon at its own slot. */
  lemma {:induction false} SlotRequestsPlace(iconSize: nat, cs: seq<Window>, i: nat)
    requires NoDup(cs) && i < |cs|
    ensures Latest(SlotRequests(iconSize, cs), cs[i], XOffset) == Some(i * iconSize)
    decreases |cs|
  {
    var n := |cs| - 1;
    var front := cs[..n];
    assert SlotRequests(iconSize, cs) == SlotRequests(iconSize, front) + [ConfigureX(cs[n], n * iconSize)];
    if i < n {
      assert cs[n] != cs[i];
      assert front[i] == cs[i];
      SlotRequestsPlace(iconSize, front, i);
    }
  }

  lemma {:induction false} SlotRequestsTouch(iconSize: nat, cs: seq<Window>, w: Window, aspect: Aspect)
    requires aspect != XOffset || w !in cs
    ensures forall k :: 0 <= k < |SlotRequests(iconSize, cs)| ==> Effect(SlotRequests(iconSize, cs)[k], w, aspect) == None
    decreases |cs|
  {
    if cs != [] {
      SlotRequestsTouch(iconSize, cs[..|cs| - 1], w, aspect);
    }
  }

  lemma {:induction false} ReleaseRequestsPlace(root: Window, cs: seq<Window>, c: Window)
    requires c in cs
    ensures Latest(ReleaseRequests(root, cs), c, Parent) == Some(root)
    ensures Latest(ReleaseRequests(root, cs), c, Visibility) == Some(0)
    decreases |cs|
  {
    var n := |cs| - 1;
    var front := cs[..n];
    var log := ReleaseRequests(root, cs);
    var tail := [ChangeEventMask(cs[n], NoEvent), UnmapWindow(cs[n]), ReparentWindow(cs[n], root, 0, 0)];
    assert log == ReleaseRequests(root, front) + tail;
    if c == cs[n] {
      assert log[|log| - 1] == ReparentWindow(c, root, 0, 0);
      var shorter := log[..|log| - 1];
      assert shorter[|shorter| - 1] == UnmapWindow(c);
    } else {
      assert c in front by {
        var k :| 0 <= k < |cs| && cs[k] == c;
        assert front[k] == c;
      }
      ReleaseRequestsPlace(root, front, c);
      LatestUntouched(ReleaseRequests(root, front), tail, c, Parent);
      LatestUntouched(ReleaseRequests(root, front), tail, c, Visibility);
    }
  }

  lemma {:induction false} ReleaseRequestsNoDestroy(root: Window, cs: seq<Window>, w: Window)
    ensures multiset(ReleaseRequests(root, cs))[DestroyWindow(w)] == 0
    decreases |cs|
  {
    if cs != [] {
      ReleaseRequestsNoDestroy(root, cs[..|cs| - 1], w);
    }
  }

  // ---------------------------------------------------------------------
  // Lemmas about the operations

  /** `retain` drops exactly the occurrences of `w`: a window stays iff it
      was docked and is not `w`. */
  lemma {:induction false} WithoutMembers(cs: seq<Window>, w: Window)
    ensures forall v :: v in Without(cs, w) <==> v in cs && v != w
    ensures |Without(cs, w)| <= |cs|
    decreases |cs|
  {
    if cs != [] {
      WithoutMembers(cs[1..], w);
      assert cs == [cs[0]] + cs[1..];
    }
  }

  /** `retain` removes every occurrence of `w` and nothing else, counted
      with multiplicity. */
  lemma {:induction false} WithoutMultiset(cs: seq<Window>, w: Window)
    ensures multiset(Without(cs, w)) == multiset(cs)[w := 0]
    decreases |cs|
  {
    if cs != [] {
      WithoutMultiset(cs[1..], w);
      assert cs == [cs[0]] + cs[1..];
      assert multiset(cs) == multiset{cs[0]} + multiset(cs[1..]);
      if cs[0] == w {
        assert multiset(cs)[w := 0] == multiset(cs[1..])[w := 0];
      } else {
        assert multiset(cs)[w := 0] == multiset{cs[0]} + multiset(cs[1..])[w := 0];
      }
    }
  }

  /** Forgetting a window that is not docked leaves the row as it was. */
  lemma {:induction false} WithoutAbsent(cs: seq<Window>, w: Window)
    requires w !in cs
    ensures Without(cs, w) == cs
    decreases |cs|
  {
    if cs != [] {
      WithoutAbsent(cs[1..], w);
      assert cs == [cs[0]] + cs[1..];
    }
  }

  /** `retain` keeps the relative order of the windows it keeps. */
  lemma {:induction false} WithoutKeepsOrder(cs: seq<Window>, w: Window)
    ensures Subsequence(Without(cs, w), cs)
    decreases |cs|
  {
    if cs != [] {
      var rest := Without(cs[1..], w);
      WithoutKeepsOrder(cs[1..], w);
      if cs[0] == w {
        assert Without(cs, w) == rest;
        SubsequenceDropHead(rest, cs);
      } else {
        assert Without(cs, w) == [cs[0]] + rest;
        assert Without(cs, w)[1..] == rest;
      }
    }
  }

  /** `retain` on a row without duplicates leaves a row without duplicates. */
  lemma {:induction false} WithoutNoDup(cs: seq<Window>, w: Window)
    requires NoDup(cs)
    ensures NoDup(Without(cs, w))
    decreases |cs|
  {
    if cs != [] {
      var rest := Without(cs[1..], w);
      assert NoDup(cs[1..]) by {
        forall i, j | 0 <= i < j < |cs[1..]| ensures cs[1..][i] != cs[1..][j] {
          assert cs[1..][i] == cs[i + 1] && cs[1..][j] == cs[j + 1];
        }
      }
      WithoutNoDup(cs[1..], w);
      if cs[0] != w {
        WithoutMembers(cs[1..], w);
        assert cs[0] !in cs[1..] by {
          forall k | 0 <= k < |cs[1..]| ensures cs[1..][k] != cs[0] {
            assert cs[1..][k] == cs[k + 1];
          }
        }
        var r := Without(cs, w);
        assert r == [cs[0]] + rest;
        forall i, j | 0 <= i < j < |r| ensures r[i] != r[j] {
          assert r[j] == rest[j - 1];
          if i > 0 {
            assert r[i] == rest[i - 1];
          } else {
            assert rest[j - 1] in rest;
          }
        }
      }
    }
  }

  /** Docking appends `w` at the end of the row, at x = old length * icon
      size, y = 0, and leaves every other icon where it was. */
  lemma AdoptPlacesAtEnd(cfg: TrayConfig, s: TrayState, w: Window, geometry: (nat, nat))
    requires w != cfg.window
    ensures Adopt(cfg, s, w, geometry).children == s.children + [w]
    ensures Latest(Adopt(cfg, s, w, geometry).log, w, XOffset) == Some(|s.children| * cfg.iconSize)
    ensures Latest(Adopt(cfg, s, w, geometry).log, w, Parent) == Some(cfg.window)
    ensures Latest(Adopt(cfg, s, w, geometry).log, w, Visibility) == Some(1)
    ensures forall v, aspect :: v != w && v != cfg.window ==>
              Latest(Adopt(cfg, s, w, geometry).log, v, aspect) == Latest(s.log, v, aspect)
  {
    var d3 := [ChangeEventMask(w, StructureNotify),
               ReparentWindow(w, cfg.window, |s.children| * cfg.iconSize, 0),
               MapWindow(w)];
    var resize := ForceSizeRequests(cfg, w, geometry);
    var docked := d3 + resize;
    var repo := RepositionRequests(cfg, |s.children| + 1);
    var log' := s.log + docked + repo;
    assert Adopt(cfg, s, w, geometry).log == log';
    assert d3[..2] == [ChangeEventMask(w, StructureNotify), ReparentWindow(w, cfg.window, |s.children| * cfg.iconSize, 0)];
    assert Latest(d3, w, XOffset) == Some(|s.children| * cfg.iconSize);
    assert Latest(d3, w, Parent) == Some(cfg.window);
    assert Latest(d3, w, Visibility) == Some(1);
    AdoptedAspect(s.log, d3, resize, repo, w, XOffset);
    AdoptedAspect(s.log, d3, resize, repo, w, Parent);
    AdoptedAspect(s.log, d3, resize, repo, w, Visibility);
    forall v, aspect | v != w && v != cfg.window
      ensures Latest(log', v, aspect) == Latest(s.log, v, aspect)
    {
      LatestUntouched(s.log + docked, repo, v, aspect);
      LatestUntouched(s.log, docked, v, aspect);
    }
  }

  lemma AdoptedAspect(log: seq<Request>, d3: seq<Request>, resize: seq<Request>, repo: seq<Request>, w: Window, aspect: Aspect)
    requires Latest(d3, w, aspect).Some?
    requires forall k :: 0 <= k < |resize| ==> Effect(resize[k], w, aspect) == None
    requires forall k :: 0 <= k < |repo| ==> Effect(repo[k], w, aspect) == None
    ensures Latest(log + (d3 + resize) + repo, w, aspect) == Latest(d3, w, aspect)
  {
    LatestUntouched(log + (d3 + resize), repo, w, aspect);
    LatestConcat(log, d3 + resize, w, aspect);
    LatestUntouched(d3, resize, w, aspect);
  }

  /** Undocking leaves the others in order at slots 0..n-1 (whenever the
      remaining row has no window twice and does not hold the tray itself)
      and resizes the tray to the new count. */
  lemma ForgetRelaysOut(cfg: TrayConfig, s: TrayState, w: Window)
    ensures Forget(cfg, s, w).children == Without(s.children, w)
    ensures NoDup(Without(s.children, w)) && cfg.window !in Without(s.children, w) ==>
              SlotsAligned(cfg, Forget(cfg, s, w))
    ensures Shown(Forget(cfg, s, w).log, cfg.window) <==> |Without(s.children, w)| * cfg.iconSize > 0
  {
    var kept := Without(s.children, w);
    var slots := SlotRequests(cfg.iconSize, kept);
    var repo := RepositionRequests(cfg, |kept|);
    var s' := Forget(cfg, s, w);
    assert s'.log == s.log + slots + repo;
    ShownAfterReposition(cfg, s.log + slots, |kept|);
    if NoDup(kept) && cfg.window !in kept {
      forall i | 0 <= i < |kept| ensures Latest(s'.log, kept[i], XOffset) == Some(i * cfg.iconSize) {
        assert kept[i] in kept;
        LatestUntouched(s.log + slots, repo, kept[i], XOffset);
        LatestConcat(s.log, slots, kept[i], XOffset);
        SlotRequestsPlace(cfg.iconSize, kept, i);
      }
    }
  }

  /** Shutdown hands every docked icon back to the root window, unmapped,
      keeps the row itself, and destroys the tray window exactly once. */
  lemma FinishReturnsIcons(cfg: TrayConfig, s: TrayState)
    ensures Finish(cfg, s).finishing && Finish(cfg, s).children == s.children
    ensures forall c :: c in s.children ==>
              Latest(Finish(cfg, s).log, c, Parent) == Some(cfg.root) &&
              Latest(Finish(cfg, s).log, c, Visibility) == Some(0)
    ensures !Shown(Finish(cfg, s).log, cfg.window)
  {
    var release := ReleaseRequests(cfg.root, s.children);
    var tail := [ChangeEventMask(cfg.window, StructureNotify), DestroyWindow(cfg.window)];
    var log' := s.log + release + tail;
    assert Finish(cfg, s).log == log';
    assert Latest(tail, cfg.window, Visibility) == Some(0);
    forall c | c in s.children
      ensures Latest(log', c, Parent) == Some(cfg.root) && Latest(log', c, Visibility) == Some(0)
    {
      ReleaseRequestsPlace(cfg.root, s.children, c);
      LatestUntouched(s.log + release, tail, c, Parent);
      LatestConcat(s.log, release, c, Parent);
      LatestConcat(s.log, release, c, Visibility);
      if c == cfg.window {
        LatestConcat(s.log + release, tail, c, Visibility);
      } else {
        LatestUntouched(s.log + release, tail, c, Visibility);
      }
    }
    LatestConcat(s.log + release, tail, cfg.window, Visibility);
  }

  /** Finishing only appends to the log, and what it appends destroys the
      tray window exactly once. */
  lemma FinishDestroysTray(cfg: TrayConfig, s: TrayState)
    ensures |Finish(cfg, s).log| >= |s.log| && Finish(cfg, s).log[..|s.log|] == s.log
    ensures multiset(Finish(cfg, s).log[|s.log|..])[DestroyWindow(cfg.window)] == 1
  {
    var release := ReleaseRequests(cfg.root, s.children);
    var tail := [ChangeEventMask(cfg.window, StructureNotify), DestroyWindow(cfg.window)];
    var log' := s.log + release + tail;
    assert Finish(cfg, s).log == log';
    assert log'[|s.log|..] == release + tail;
    ReleaseRequestsNoDestroy(cfg.root, s.children, cfg.window);
  }

  /** A resize is issued iff the dimensions differ from icon size squared. */
  lemma ForceSizeOnlyWhenNeeded(cfg: TrayConfig, w: Window, dims: (nat, nat))
    ensures ForceSizeRequests(cfg, w, dims) == [] <==> dims == (cfg.iconSize, cfg.iconSize)
    ensures ForceSizeRequests(cfg, w, dims) != [] ==>
              ForceSizeRequests(cfg, w, dims) == [ConfigureSize(w, cfg.iconSize, cfg.iconSize)]
  {
  }

  /** A claim only changes the timestamp and broadcasts MANAGER when the
      re-queried owner is the tray window. */
  lemma TakeSelectionOutcome(cfg: TrayConfig, s: TrayState, time: Timestamp, owner: Window)
    ensures TakeSelection(cfg, s, time, owner).1 <==> owner == cfg.window
    ensures TakeSelection(cfg, s, time, owner).0.children == s.children
    ensures TakeSelection(cfg, s, time, owner).0.finishing == s.finishing
    ensures TakeSelection(cfg, s, time, owner).0.timestamp == if owner == cfg.window then time else s.timestamp
    ensures TakeSelection(cfg, s, time, owner).0.log ==
              s.log + [SetSelectionOwner(cfg.window, cfg.selection, time)]
              + if owner == cfg.window
                then [SendManager(cfg.root, cfg.managerAtom, [time, cfg.selection, cfg.window, 0, 0])]
                else []
  {
  }

  /** Tray opcode dispatch: 0 docks `data[2]`, 1 and 2 change nothing, any
      other opcode is the fatal `unreachable!`; other message types are ignored. */
  lemma OpcodeDispatch(cfg: TrayConfig, s: TrayState, messageType: Atom, data: Data32, owner: Window, geometry: (nat, nat))
    requires !s.finishing
    ensures var (s', v) := Step(cfg, s, ClientMessage(messageType, data), owner, geometry);
            if messageType != cfg.opcodeAtom then s' == s && v == Continue
            else if data[1] == 0 then s' == Adopt(cfg, s, data[2], geometry) && v == Continue
            else if data[1] == 1 || data[1] == 2 then s' == s && v == Continue
            else v == Panic
  {
  }

  /** PropertyNotify is acted on only while the selection is unclaimed; a
      failed claim asks for exit code 11; every other normal-mode event
      yields no exit code. */
  lemma NormalVerdicts(cfg: TrayConfig, s: TrayState, ev: Event, owner: Window, geometry: (nat, nat))
    requires !s.finishing
    ensures var (s', v) := Step(cfg, s, ev, owner, geometry);
            && (ev.PropertyNotify? && s.timestamp != 0 ==> s' == s && v == Continue)
            && (ev.PropertyNotify? && s.timestamp == 0 ==>
                  (v == Exit(11) <==> owner != cfg.window) && (v == Continue <==> owner == cfg.window))
            && (v.Exit? ==> ev.PropertyNotify? && v.code == ExitFailedSelect)
            && (v == Panic ==> ev.ClientMessage? && ev.data[1] > 2)
  {
  }

  /** The remaining normal-mode events. */
  lemma LifecycleEvents(cfg: TrayConfig, s: TrayState, w: Window, parent: Window, owner: Window, geometry: (nat, nat))
    requires !s.finishing
    ensures Step(cfg, s, ReparentNotify(w, parent), owner, geometry).0 ==
              if parent != cfg.window then Forget(cfg, s, w) else s
    ensures Step(cfg, s, DestroyNotify(w), owner, geometry).0 == Forget(cfg, s, w)
    ensures Step(cfg, s, SelectionClear, owner, geometry).0 == Finish(cfg, s)
    ensures Step(cfg, s, OtherEvent, owner, geometry) == (s, Continue)
  {
  }

  /** Once finishing, nothing changes and only the tray window's own
      DestroyNotify ends the run, with exit code 0. */
  lemma FinishingIgnoresAll(cfg: TrayConfig, s: TrayState, ev: Event, owner: Window, geometry: (nat, nat))
    requires s.finishing
    ensures Step(cfg, s, ev, owner, geometry).0 == s
    ensures Step(cfg, s, ev, owner, geometry).1 == Exit(0) <==> ev == DestroyNotify(cfg.window)
    ensures Step(cfg, s, ev, owner, geometry).1 != Exit(0) ==> Step(cfg, s, ev, owner, geometry).1 == Continue
  {
  }

  lemma InitialInv(cfg: TrayConfig)
    ensures Inv(cfg, Initial())
  {
  }

  /** Every event handled keeps the invariants. */
  lemma StepKeepsInv(cfg: TrayConfig, s: TrayState, ev: Event, owner: Window, geometry: (nat, nat))
    requires Inv(cfg, s)
    ensures Inv(cfg, Step(cfg, s, ev, owner, geometry).0)
  {
    if s.finishing {
      return;
    }
    var (s', v) := Step(cfg, s, ev, owner, geometry);
    match ev
    case PropertyNotify(time) =>
      if s.timestamp == 0 {
        var added := s'.log[|s.log|..];
        assert s'.log == s.log + added;
        QuietRequestsKeepInv(cfg, s, s', added);
      }
    case ClientMessage(messageType, data) =>
      if messageType == cfg.opcodeAtom && data[1] == RequestDock {
        AdoptKeepsInv(cfg, s, data[2], geometry);
      }
    case ReparentNotify(w, parent) =>
      if parent != cfg.window {
        ForgetKeepsInv(cfg, s, w);
      }
    case DestroyNotify(w) =>
      ForgetKeepsInv(cfg, s, w);
    case ConfigureNotify(w, width, height) =>
      QuietRequestsKeepInv(cfg, s, s', ForceSizeRequests(cfg, w, (width, height)));
    case SelectionClear =>
      FinishReturnsIcons(cfg, s);
    case OtherEvent =>
  }

  /** Requests that neither map, unmap nor move a window keep the
      invariants of a state whose children they leave alone. */
  lemma QuietRequestsKeepInv(cfg: TrayConfig, s: TrayState, s': TrayState, added: seq<Request>)
    requires Inv(cfg, s) && !s.finishing
    requires s'.children == s.children && !s'.finishing && s'.log == s.log + added
    requires forall k :: 0 <= k < |added| ==>
               added[k].ChangeEventMask? || added[k].ConfigureSize? ||
               added[k].SetSelectionOwner? || added[k].SendManager?
    ensures Inv(cfg, s')
  {
    forall w, aspect | aspect != Parent
      ensures Latest(s'.log, w, aspect) == Latest(s.log, w, aspect)
    {
      LatestUntouched(s.log, added, w, aspect);
    }
  }

  lemma AdoptKeepsInv(cfg: TrayConfig, s: TrayState, w: Window, geometry: (nat, nat))
    requires Inv(cfg, s) && !s.finishing
    ensures Inv(cfg, Adopt(cfg, s, w, geometry))
  {
    var s' := Adopt(cfg, s, w, geometry);
    var docked := [ChangeEventMask(w, StructureNotify),
                   ReparentWindow(w, cfg.window, |s.children| * cfg.iconSize, 0),
                   MapWindow(w)]
                  + ForceSizeRequests(cfg, w, geometry);
    assert s'.log == s.log + docked + RepositionRequests(cfg, |s.children| + 1);
    ShownAfterReposition(cfg, s.log + docked, |s.children| + 1);
    if NoDup(s'.children) && cfg.window !in s'.children {
      assert w != cfg.window;
      AdoptPlacesAtEnd(cfg, s, w, geometry);
      assert NoDup(s.children) by {
        forall i, j | 0 <= i < j < |s.children| ensures s.children[i] != s.children[j] {
          assert s'.children[i] == s.children[i] && s'.children[j] == s.children[j];
        }
      }
      forall i | 0 <= i < |s'.children| ensures Latest(s'.log, s'.children[i], XOffset) == Some(i * cfg.iconSize) {
        if i < |s.children| {
          assert s'.children[i] == s.children[i];
          assert s.children[i] != w by {
            assert s'.children[|s.children|] == w;
          }
          assert s.children[i] in s.children;
        }
      }
    }
  }

  lemma ForgetKeepsInv(cfg: TrayConfig, s: TrayState, w: Window)
    requires Inv(cfg, s) && !s.finishing
    ensures Inv(cfg, Forget(cfg, s, w))
  {
    ForgetRelaysOut(cfg, s, w);
  }

  /** For every sequence of events, the invariants hold where the run stops. */
  lemma {:induction false} RunKeepsInv(cfg: TrayConfig, s: TrayState, inputs: seq<Input>)
    requires Inv(cfg, s)
    ensures Inv(cfg, Run(cfg, s, inputs).0)
    decreases |inputs|
  {
    if inputs != [] {
      StepKeepsInv(cfg, s, inputs[0].event, inputs[0].owner, inputs[0].geometry);
      var (s', v) := Step(cfg, s, inputs[0].event, inputs[0].owner, inputs[0].geometry);
      if v == Continue {
        RunKeepsInv(cfg, s', inputs[1..]);
      }
    }
  }

  /** A tray started while the selection is owned exits with code 11 without
      sending anything; otherwise it runs the event loop from a new manager.
      Either way the invariants hold where it stops. */
  lemma StartupOutcome(cfg: TrayConfig, owner: Window, inputs: seq<Input>)
    ensures owner != NoWindow ==> Startup(cfg, owner, inputs) == (Initial(), Exit(ExitFailedSelect))
    ensures owner == NoWindow ==> Startup(cfg, owner, inputs) == Run(cfg, Initial(), inputs)
    ensures Inv(cfg, Startup(cfg, owner, inputs).0)
  {
    InitialInv(cfg);
    RunKeepsInv(cfg, Initial(), inputs);
  }

  /** Once a tray's claim succeeds, the selection is owned by its window, so
      a second tray started after it finds the selection unavailable and
      exits with code 11. */
  lemma ClaimBlocksSecondTray(cfg: TrayConfig, other: TrayConfig, s: TrayState, time: Timestamp,
                              inputs: seq<Input>)
    requires cfg.window != NoWindow
    ensures TakeSelection(cfg, s, time, cfg.window).1
    ensures !SelectionAvailable(cfg.window)
    ensures Startup(other, cfg.window, inputs) == (Initial(), Exit(ExitFailedSelect))
  {
  }

  /** `adopt` does not look for the window among the docked icons: a second
      dock request for the same window docks it twice, and its last move
      puts it in the second slot, so the slots are no longer one per icon. */
  lemma DuplicateDock(cfg: TrayConfig, w: Window, g1: (nat, nat), g2: (nat, nat))
    requires w != cfg.window && cfg.iconSize > 0
    ensures var s := Adopt(cfg, Adopt(cfg, Initial(), w, g1), w, g2);
            && s.children == [w, w]
            && Latest(s.log, w, XOffset) == Some(cfg.iconSize)
            && !SlotsAligned(cfg, s)
  {
    var s1 := Adopt(cfg, Initial(), w, g1);
    var s := Adopt(cfg, s1, w, g2);
    AdoptPlacesAtEnd(cfg, Initial(), w, g1);
    AdoptPlacesAtEnd(cfg, s1, w, g2);
    assert s.children[0] == w;
  }

  /** `adopt` does not wait for the selection claim: a dock request handled
      while the timestamp is still 0 docks the icon and maps the tray. */
  lemma DockBeforeClaim(cfg: TrayConfig, data: Data32, owner: Window, geometry: (nat, nat))
    requires data[1] == RequestDock && data[2] != cfg.window && cfg.iconSize > 0
    ensures var (s, v) := Step(cfg, Initial(), ClientMessage(cfg.opcodeAtom, data), owner, geometry);
            && v == Continue
            && s.timestamp == 0
            && s.children == [data[2]]
            && Shown(s.log, cfg.window)
  {
    var w := data[2];
    var s := Adopt(cfg, Initial(), w, geometry);
    var docked := [ChangeEventMask(w, StructureNotify), ReparentWindow(w, cfg.window, 0, 0), MapWindow(w)]
                  + ForceSizeRequests(cfg, w, geometry);
    assert s.log == docked + RepositionRequests(cfg, 1);
    ShownAfterReposition(cfg, docked, 1);
  }

  /** Icon size 24: dock W1 and W2, then undock W1.  W2 moves to x = 0 and
      the tray shrinks to 24 pixels but stays mapped; undocking W2 as well
      unmaps it. */
  lemma {:induction false} ScenarioDockTwoForgetOne(cfg: TrayConfig, w1: Window, w2: Window)
    requires cfg.iconSize == 24 && w1 != w2 && w1 != cfg.window && w2 != cfg.window
    ensures var s1 := Adopt(cfg, Initial(), w1, (24, 24));
            var s2 := Adopt(cfg, s1, w2, (16, 16));
            var s3 := Forget(cfg, s2, w1);
            && Latest(s1.log, w1, XOffset) == Some(0)
            && Latest(s2.log, w2, XOffset) == Some(24)
            && s2.log[|s2.log| - 2] == ConfigureGeometry(cfg.window, 140, 3, 48, 20)
            && s3.children == [w2]
            && Latest(s3.log, w2, XOffset) == Some(0)
            && s3.log[|s3.log| - 2] == ConfigureGeometry(cfg.window, 140, 3, 24, 20)
            && Shown(s3.log, cfg.window)
            && !Shown(Forget(cfg, s3, w2).log, cfg.window)
  {
    var s1 := Adopt(cfg, Initial(), w1, (24, 24));
    var s2 := Adopt(cfg, s1, w2, (16, 16));
    AdoptPlacesAtEnd(cfg, Initial(), w1, (24, 24));
    AdoptPlacesAtEnd(cfg, s1, w2, (16, 16));
    assert s2.children == [w1, w2];
    ForgetFirstOfTwo(cfg, s2, w1, w2);
  }

  /** Undocking the first of two icons moves the second to x = 0, shrinks
      the tray to one slot and keeps it mapped; undocking the second as
      well unmaps the tray. */
  lemma {:induction false} ForgetFirstOfTwo(cfg: TrayConfig, s: TrayState, w1: Window, w2: Window)
    requires cfg.iconSize == 24 && w1 != w2 && w1 != cfg.window && w2 != cfg.window
    requires s.children == [w1, w2]
    ensures var s' := Forget(cfg, s, w1);
            && s'.children == [w2]
            && Latest(s'.log, w2, XOffset) == Some(0)
            && s'.log[|s'.log| - 2] == ConfigureGeometry(cfg.window, 140, 3, 24, 20)
            && Shown(s'.log, cfg.window)
            && !Shown(Forget(cfg, s', w2).log, cfg.window)
  {
    var s' := Forget(cfg, s, w1);
    ForgetFirstLog(cfg, s, w1, w2);
    var tail := [ConfigureX(w2, 0), ConfigureGeometry(cfg.window, 140, 3, 24, 20), MapWindow(cfg.window)];
    assert s'.log == s.log + tail;
    assert Latest(s'.log, w2, XOffset) == Some(0) by {
      assert tail[..2] == [ConfigureX(w2, 0), tail[1]];
      assert tail[..2][..1] == [ConfigureX(w2, 0)];
      assert Latest(tail[..2][..1], w2, XOffset) == Some(0);
      assert Latest(tail[..2], w2, XOffset) == Some(0);
      assert Latest(tail, w2, XOffset) == Some(0);
      LatestConcat(s.log, tail, w2, XOffset);
    }
    assert Shown(s'.log, cfg.window);
    ForgetOnlyLog(cfg, s', w2);
  }

  /** The requests undocking the first of two icons sends. */
  lemma ForgetFirstLog(cfg: TrayConfig, s: TrayState, w1: Window, w2: Window)
    requires cfg.iconSize == 24 && w1 != w2
    requires s.children == [w1, w2]
    ensures Forget(cfg, s, w1).children == [w2]
    ensures Forget(cfg, s, w1).log ==
              s.log + [ConfigureX(w2, 0), ConfigureGeometry(cfg.window, 140, 3, 24, 20), MapWindow(cfg.window)]
  {
    assert Without(s.children, w1) == [w2] by {
      assert s.children[1..] == [w2];
      assert s.children[1..][1..] == [];
      assert Without([w2], w1) == [w2] + Without([], w1);
    }
    assert SlotRequests(cfg.iconSize, [w2]) == [ConfigureX(w2, 0)] by {
      assert [w2][..0] == [];
      assert SlotRequests(cfg.iconSize, [w2]) == SlotRequests(cfg.iconSize, []) + [ConfigureX(w2, 0 * cfg.iconSize)];
    }
  }

  /** Undocking the only icon unmaps the tray. */
  lemma ForgetOnlyLog(cfg: TrayConfig, s: TrayState, w: Window)
    requires s.children == [w]
    ensures Forget(cfg, s, w).children == []
    ensures Forget(cfg, s, w).log == s.log + [UnmapWindow(cfg.window)]
    ensures !Shown(Forget(cfg, s, w).log, cfg.window)
  {
    assert Without([w], w) == [] + Without([], w);
  }
}
