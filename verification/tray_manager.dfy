/** The `Manager` of src/tray/manager.rs as a class whose methods update its
    fields in place and write requests to a shared X connection.  Each method
    is proved to do exactly what the matching function of TrayProtocol says,
    so the lemmas proved there hold of the class too. */
module TrayManager {
  import opened Wrappers
  import opened TrayProtocol

  /** The outgoing side of the X connection: the requests sent so far.  It is
      shared with, and outlives, the manager. */
  class Connection {
    var requests: seq<Request>

    constructor ()
      ensures requests == []
    {
      requests := [];
    }

    method Send(r: Request)
      modifies this
      ensures requests == old(requests) + [r]
    {
      requests := requests + [r];
    }
  }

  class Manager {
    const conn: Connection
    const iconSize: nat
    /** The tray window (its id is generated when the manager is built). */
    const window: Window
    /** The root window of the manager's screen. */
    const root: Window
    /** The interned atoms `_NET_SYSTEM_TRAY_S0`, `MANAGER` and `_NET_SYSTEM_TRAY_OPCODE`. */
    const selection: Atom
    const managerAtom: Atom
    const opcodeAtom: Atom

    var children: seq<Window>
    var timestamp: Timestamp
    var finishing: bool

    function Config(): TrayConfig {
      TrayConfig(iconSize, window, root, selection, managerAtom, opcodeAtom)
    }

    /** The manager's fields together with everything sent on the connection. */
    ghost function State(): TrayState
      reads this, conn
    {
      TrayState(children, timestamp, finishing, conn.requests)
    }

    /** The icon size is a `u16`, and so is the tray width computed from it. */
    ghost predicate Valid()
      reads this
    {
      iconSize <= 0xFFFF && |children| * iconSize <= 0xFFFF
    }

    /** Room for one more icon: its `i16` x offset and the new `u16` width fit. */
    ghost predicate RoomForOneMore()
      reads this
    {
      |children| * iconSize <= 0x7FFF && (|children| + 1) * iconSize <= 0xFFFF
    }

    /** `Manager::new`. */
    constructor (conn: Connection, iconSize: nat, window: Window, root: Window,
                 selection: Atom, managerAtom: Atom, opcodeAtom: Atom)
      requires iconSize <= 0xFFFF
      ensures Valid()
      ensures this.conn == conn
      ensures Config() == TrayConfig(iconSize, window, root, selection, managerAtom, opcodeAtom)
      ensures children == [] && timestamp == 0 && !finishing
    {
      this.conn := conn;
      this.iconSize := iconSize;
      this.window := window;
      this.root := root;
      this.selection := selection;
      this.managerAtom := managerAtom;
      this.opcodeAtom := opcodeAtom;
      children := [];
      timestamp := 0;
      finishing := false;
    }

    /** `is_selection_available`, given the current owner of the selection. */
    method IsSelectionAvailable(owner: Window) returns (available: bool)
      ensures available <==> owner == NoWindow
    {
      available := owner == NoWindow;
    }

    /** `take_selection`; `owner` is the owner reported after the claim. */
    method TakeSelection(time: Timestamp, owner: Window) returns (ok: bool)
      requires Valid()
      modifies this, conn
      ensures Valid()
      ensures (State(), ok) == TrayProtocol.TakeSelection(Config(), old(State()), time, owner)
      ensures children == old(children)
    {
      conn.Send(SetSelectionOwner(window, selection, time));
      ok := owner == window;
      if ok {
        timestamp := time;
        conn.Send(SendManager(root, managerAtom, [time, selection, window, 0, 0]));
      }
    }

    /** `force_size`; `geometry` answers the geometry query made when no
        dimensions are given. */
    method ForceSize(w: Window, dims: Option<(nat, nat)>, geometry: (nat, nat))
      modifies conn
      ensures conn.requests == old(conn.requests) + ForceSizeRequests(Config(), w, dims.GetOr(geometry))
    {
      var d := dims.GetOr(geometry);
      if d != (iconSize, iconSize) {
        conn.Send(ConfigureSize(w, iconSize, iconSize));
      }
    }

    /** `reposition`. */
    method Reposition()
      requires Valid()
      modifies conn
      ensures conn.requests == old(conn.requests) + RepositionRequests(Config(), |children|)
      ensures Shown(conn.requests, window) <==> |children| * iconSize > 0
    {
      var width := |children| * iconSize;
      if width > 0 {
        conn.Send(ConfigureGeometry(window, TrayX, TrayY, width, TrayHeight));
        conn.Send(MapWindow(window));
      } else {
        conn.Send(UnmapWindow(window));
      }
      ShownAfterReposition(Config(), old(conn.requests), |children|);
    }

    /** `adopt`; `geometry` answers the geometry query of `force_size(w, None)`. */
    method Adopt(w: Window, geometry: (nat, nat))
      requires Valid() && RoomForOneMore()
      modifies this, conn
      ensures Valid()
      ensures State() == TrayProtocol.Adopt(Config(), old(State()), w, geometry)
    {
      var offset := |children| * iconSize;
      conn.Send(ChangeEventMask(w, StructureNotify));
      conn.Send(ReparentWindow(w, window, offset, 0));
      conn.Send(MapWindow(w));
      ForceSize(w, None, geometry);
      children := children + [w];
      Reposition();
    }

    /** `forget`. */
    method Forget(w: Window)
      requires Valid()
      modifies this, conn
      ensures Valid()
      ensures State() == TrayProtocol.Forget(Config(), old(State()), w)
    {
      WithoutMembers(children, w);
      LengthTimesSize(|Without(children, w)|, |children|, iconSize);
      children := Without(children, w);
      var i := 0;
      while i < |children|
        invariant 0 <= i <= |children|
        invariant conn.requests == old(conn.requests) + SlotRequests(iconSize, children[..i])
        modifies conn
      {
        assert children[..i + 1][..i] == children[..i];
        conn.Send(ConfigureX(children[i], i * iconSize));
        i := i + 1;
      }
      assert children[..i] == children;
      Reposition();
    }

    /** `finish`. */
    method Finish()
      requires Valid()
      modifies this, conn
      ensures Valid()
      ensures State() == TrayProtocol.Finish(Config(), old(State()))
    {
      finishing := true;
      var i := 0;
      while i < |children|
        invariant 0 <= i <= |children|
        invariant conn.requests == old(conn.requests) + ReleaseRequests(root, children[..i])
        modifies conn
      {
        var c := children[i];
        assert children[..i + 1][..i] == children[..i];
        conn.Send(ChangeEventMask(c, NoEvent));
        conn.Send(UnmapWindow(c));
        conn.Send(ReparentWindow(c, root, 0, 0));
        i := i + 1;
      }
      assert children[..i] == children;
      conn.Send(ChangeEventMask(window, StructureNotify));
      conn.Send(DestroyWindow(window));
    }

    /** `handle_event`; `owner` and `geometry` are the replies its handling
        would read back from the server. */
    method HandleEvent(ev: Event, owner: Window, geometry: (nat, nat)) returns (v: Verdict)
      requires Valid()
      requires !finishing && ev.ClientMessage? && ev.messageType == opcodeAtom && ev.data[1] == RequestDock ==>
                 RoomForOneMore()
      modifies this, conn
      ensures Valid()
      ensures (State(), v) == Step(Config(), old(State()), ev, owner, geometry)
    {
      if finishing {
        v := HandleEventFinishing(ev);
      } else {
        v := HandleEventNormal(ev, owner, geometry);
      }
    }

    /** `handle_event_finishing`: changes nothing. */
    method HandleEventFinishing(ev: Event) returns (v: Verdict)
      ensures v == FinishingVerdict(Config(), ev)
    {
      v := Continue;
      if ev.DestroyNotify? && ev.window == window {
        v := Exit(0);
      }
    }

    /** `handle_event_normal`. */
    method HandleEventNormal(ev: Event, owner: Window, geometry: (nat, nat)) returns (v: Verdict)
      requires Valid() && !finishing
      requires ev.ClientMessage? && ev.messageType == opcodeAtom && ev.data[1] == RequestDock ==> RoomForOneMore()
      modifies this, conn
      ensures Valid()
      ensures (State(), v) == NormalStep(Config(), old(State()), ev, owner, geometry)
    {
      v := Continue;
      match ev
      case PropertyNotify(time) =>
        if timestamp == 0 {
          var ok := TakeSelection(time, owner);
          if !ok {
            v := Exit(ExitFailedSelect);
          }
        }
      case ClientMessage(messageType, data) =>
        if messageType == opcodeAtom {
          var opcode, w := data[1], data[2];
          if opcode == RequestDock {
            Adopt(w, geometry);
          } else if opcode == BeginMessage || opcode == CancelMessage {
          } else {
            v := Panic;
          }
        }
      case ReparentNotify(w, parent) =>
        if parent != window {
          Forget(w);
        }
      case DestroyNotify(w) =>
        Forget(w);
      case ConfigureNotify(w, width, height) =>
        ForceSize(w, Some((width, height)), geometry);
      case SelectionClear =>
        Finish();
      case OtherEvent =>
    }
  }

  lemma LengthTimesSize(m: nat, n: nat, size: nat)
    requires m <= n
    ensures m * size <= n * size
  {
  }
}
