/** The EWMH workspace list of src/wm/xcb/workspaces.rs: one numbered
    workspace per desktop name, each placed on the monitor whose origin is
    the desktop's viewport, stably sorted by monitor.  The three EWMH replies
    (current desktop, desktop names, desktop viewports) are inputs, `None`
    standing for a reply error. */
module Workspaces {
  import opened Wrappers

  /** A monitor: its origin and its output name. */
  datatype Monitor = Monitor(x: int, y: int, output: string)

  datatype Workspace = Workspace(
    number: int,
    name: string,
    visible: bool,
    focused: bool,
    urgent: bool,
    output: string)

  /** The tuple pushed for each desktop before sorting. */
  datatype Entry = Entry(name: string, focused: bool, monitor: nat, output: string)

  const UnknownOutput: string := "[unknown]"

  predicate At(m: Monitor, vp: (int, int)) {
    (m.x, m.y) == vp
  }

  /** `monitors.iter().enumerate().find(..)` from index `from` on. */
  function FindMonitor(monitors: seq<Monitor>, vp: (int, int), from: nat): (r: Option<nat>)
    requires from <= |monitors|
    ensures r.Some? ==> from <= r.value < |monitors| && At(monitors[r.value], vp)
    ensures r.Some? ==> forall j :: from <= j < r.value ==> !At(monitors[j], vp)
    ensures r.None? ==> forall j :: from <= j < |monitors| ==> !At(monitors[j], vp)
    decreases |monitors| - from
  {
    if from == |monitors| then None
    else if At(monitors[from], vp) then Some(from)
    else FindMonitor(monitors, vp, from + 1)
  }

  /** The first monitor's output, or "[unknown]" when there is no monitor. */
  function DefaultOutput(monitors: seq<Monitor>): string {
    if monitors == [] then UnknownOutput else monitors[0].output
  }

  /** The monitor index and output of the desktop whose viewport is `vp`:
      the first monitor at `vp`, otherwise index 0 with the default output. */
  function MonitorFor(monitors: seq<Monitor>, vp: (int, int)): (r: (nat, string))
    ensures (exists j :: 0 <= j < |monitors| && At(monitors[j], vp)) ==>
              r.0 < |monitors| && At(monitors[r.0], vp) && r.1 == monitors[r.0].output &&
              forall j :: 0 <= j < r.0 ==> !At(monitors[j], vp)
    ensures (forall j :: 0 <= j < |monitors| ==> !At(monitors[j], vp)) ==>
              r == (0, DefaultOutput(monitors))
    ensures monitors == [] ==> r == (0, UnknownOutput)
  {
    match FindMonitor(monitors, vp, 0)
    case Some(k) => (k, monitors[k].output)
    case None => (0, DefaultOutput(monitors))
  }

  /** The viewport of desktop `i`; a missing one is (0, 0). */
  function ViewportAt(viewports: seq<(int, int)>, i: nat): (int, int) {
    if i < |viewports| then viewports[i] else (0, 0)
  }

  /** The tuple the loop pushes for desktop `i`. */
  function DesktopEntry(names: seq<string>, i: nat, current: nat, viewports: seq<(int, int)>, monitors: seq<Monitor>): Entry
    requires i < |names|
  {
    var (m, output) := MonitorFor(monitors, ViewportAt(viewports, i));
    Entry(names[i], i == current, m, output)
  }

  /** All the tuples, in desktop order. */
  function DesktopEntries(names: seq<string>, current: nat, viewports: seq<(int, int)>, monitors: seq<Monitor>): seq<Entry> {
    seq(|names|, i requires 0 <= i < |names| => DesktopEntry(names, i, current, viewports, monitors))
  }

  // ---------------------------------------------------------------------
  // The stable sort by monitor index (`sort_by(|a, b| a.2.cmp(&b.2))`)

  ghost predicate SortedByMonitor(s: seq<Entry>) {
    forall i, j :: 0 <= i < j < |s| ==> s[i].monitor <= s[j].monitor
  }

  /** The entries on monitor `m`, in order. */
  function OnMonitor(s: seq<Entry>, m: nat): seq<Entry> {
    if s == [] then []
    else (if s[0].monitor == m then [s[0]] else []) + OnMonitor(s[1..], m)
  }

  /** Insert `e` after every entry whose monitor is not greater. */
  function Insert(s: seq<Entry>, e: Entry): seq<Entry> {
    if s == [] then [e]
    else if e.monitor < s[0].monitor then [e] + s
    else [s[0]] + Insert(s[1..], e)
  }

  /** The standard library's stable sort, specified as an insertion sort. */
  function SortByMonitor(s: seq<Entry>): seq<Entry>
    decreases |s|
  {
    if s == [] then []
    else Insert(SortByMonitor(s[..|s| - 1]), s[|s| - 1])
  }

  /** The final `enumerate().map(..)`: number from 1, visible iff focused. */
  function Numbered(s: seq<Entry>): seq<Workspace> {
    seq(|s|, k requires 0 <= k < |s| =>
      Workspace(k + 1, s[k].name, s[k].focused, s[k].focused, false, s[k].output))
  }

  function NamesOf(s: seq<Entry>): seq<string> {
    seq(|s|, k requires 0 <= k < |s| => s[k].name)
  }

  function WorkspaceNames(ws: seq<Workspace>): seq<string> {
    seq(|ws|, k requires 0 <= k < |ws| => ws[k].name)
  }

  /** `get_workspaces`. */
  method GetWorkspaces(currentReply: Option<nat>, namesReply: Option<seq<string>>,
                       viewportsReply: Option<seq<(int, int)>>, monitors: seq<Monitor>)
    returns (ws: seq<Workspace>)
    ensures ws == Numbered(SortByMonitor(DesktopEntries(namesReply.GetOr([]), currentReply.GetOr(0),
                                                        viewportsReply.GetOr([]), monitors)))
    ensures |ws| == |namesReply.GetOr([])|
    ensures forall k :: 0 <= k < |ws| ==> ws[k].number == k + 1
  {
    var current := currentReply.GetOr(0);
    var names := namesReply.GetOr([]);
    var viewports := viewportsReply.GetOr([]);
    var entries: seq<Entry> := [];
    for i := 0 to |names|
      invariant |entries| == i
      invariant forall k :: 0 <= k < i ==> entries[k] == DesktopEntry(names, k, current, viewports, monitors)
    {
      var focused := i == current;
      var vp := if i < |viewports| then viewports[i] else (0, 0);
      var found := FindMonitor(monitors, vp, 0);
      var mindex, output := 0, DefaultOutput(monitors);
      if found.Some? {
        mindex, output := found.value, monitors[found.value].output;
      }
      entries := entries + [Entry(names[i], focused, mindex, output)];
    }
    assert entries == DesktopEntries(names, current, viewports, monitors);
    SortPermutes(entries);
    entries := SortByMonitor(entries);
    ws := Numbered(entries);
  }

  /** What the workspace list promises about its shape: one workspace per
      desktop name (a permutation of the names), numbered 1..n in output
      order, visible iff focused, never urgent; with no monitors every
      output is "[unknown]". */
  lemma WorkspaceListShape(names: seq<string>, current: nat, viewports: seq<(int, int)>, monitors: seq<Monitor>)
    ensures var ws := Numbered(SortByMonitor(DesktopEntries(names, current, viewports, monitors)));
            && |ws| == |names|
            && multiset(WorkspaceNames(ws)) == multiset(names)
            && (forall k :: 0 <= k < |ws| ==>
                  ws[k].number == k + 1 && ws[k].visible == ws[k].focused && !ws[k].urgent)
            && (monitors == [] ==> forall k :: 0 <= k < |ws| ==> ws[k].output == UnknownOutput)
  {
    var es := DesktopEntries(names, current, viewports, monitors);
    var entries := SortByMonitor(es);
    var ws := Numbered(entries);
    SortPermutes(es);
    assert multiset(WorkspaceNames(ws)) == multiset(names) by {
      SortNames(es);
      assert NamesOf(es) == names;
      assert WorkspaceNames(ws) == NamesOf(entries);
    }
    if monitors == [] {
      forall k | 0 <= k < |ws| ensures ws[k].output == UnknownOutput {
        assert entries[k] in multiset(es);
      }
    }
  }

  /** Each workspace comes from one desktop `i`: it carries that desktop's
      name and the output of the monitor chosen for its viewport (a missing
      viewport counting as (0, 0)), and it is focused iff `i` is the current
      desktop. */
  lemma WorkspaceOrigin(names: seq<string>, current: nat, viewports: seq<(int, int)>, monitors: seq<Monitor>)
    ensures var ws := Numbered(SortByMonitor(DesktopEntries(names, current, viewports, monitors)));
            forall k :: 0 <= k < |ws| ==>
              exists i :: 0 <= i < |names| && ws[k].name == names[i]
                          && ws[k].output == MonitorFor(monitors, ViewportAt(viewports, i)).1
                          && (ws[k].focused <==> i == current)
  {
    var es := DesktopEntries(names, current, viewports, monitors);
    var entries := SortByMonitor(es);
    var ws := Numbered(entries);
    SortPermutes(es);
    forall k | 0 <= k < |ws|
      ensures exists i :: 0 <= i < |names| && ws[k].name == names[i]
                          && ws[k].output == MonitorFor(monitors, ViewportAt(viewports, i)).1
                          && (ws[k].focused <==> i == current)
    {
      assert entries[k] in multiset(es);
      var i :| 0 <= i < |es| && es[i] == entries[k];
      assert es[i] == DesktopEntry(names, i, current, viewports, monitors);
    }
  }

  /** What the workspace list promises about focus: the desktop at index
      `current` (and only it) is focused, and it appears exactly once. */
  lemma WorkspaceListFocus(names: seq<string>, current: nat, viewports: seq<(int, int)>, monitors: seq<Monitor>)
    ensures var ws := Numbered(SortByMonitor(DesktopEntries(names, current, viewports, monitors)));
            && (forall k :: 0 <= k < |ws| && ws[k].focused ==> current < |names| && ws[k].name == names[current])
            && (current < |names| ==> exists k :: 0 <= k < |ws| && ws[k].focused)
            && (forall k, l :: 0 <= k < l < |ws| ==> !(ws[k].focused && ws[l].focused))
  {
    var es := DesktopEntries(names, current, viewports, monitors);
    var entries := SortByMonitor(es);
    var ws := Numbered(entries);
    SortPermutes(es);
    DesktopFocus(names, current, viewports, monitors);
    forall k | 0 <= k < |ws| && ws[k].focused ensures current < |names| && ws[k].name == names[current] {
      assert entries[k] in multiset(es);
    }
    if current < |names| {
      assert es[current] in multiset(entries);
      var k :| 0 <= k < |entries| && entries[k] == es[current];
      assert ws[k].focused;
    }
    forall k, l | 0 <= k < l < |ws| ensures !(ws[k].focused && ws[l].focused) {
      if ws[k].focused && ws[l].focused {
        assert entries[k] in multiset(es) && entries[l] in multiset(es);
        TwoOccurrences(entries, k, l);
      }
    }
  }

  // ---------------------------------------------------------------------
  // Lemmas

  /** Exactly the desktop at index `current` is focused. */
  lemma DesktopFocus(names: seq<string>, current: nat, viewports: seq<(int, int)>, monitors: seq<Monitor>)
    ensures forall e :: e in DesktopEntries(names, current, viewports, monitors) && e.focused ==>
              current < |names| && e == DesktopEntry(names, current, current, viewports, monitors)
    ensures current < |names| ==>
              multiset(DesktopEntries(names, current, viewports, monitors))[DesktopEntry(names, current, current, viewports, monitors)] == 1
  {
    var es := DesktopEntries(names, current, viewports, monitors);
    if current < |names| {
      var f := es[current];
      var before, after := es[..current], es[current + 1..];
      assert es == before + [f] + after;
      assert f !in before by {
        forall k | 0 <= k < |before| ensures before[k] != f { assert before[k] == es[k]; }
      }
      assert f !in after by {
        forall k | 0 <= k < |after| ensures after[k] != f { assert after[k] == es[current + 1 + k]; }
      }
    }
  }

  /** A value found at two positions occurs at least twice. */
  lemma TwoOccurrences(s: seq<Entry>, k: nat, l: nat)
    requires k < l < |s|
    ensures s[k] == s[l] ==> multiset(s)[s[k]] >= 2
  {
    assert s == s[..l] + s[l..];
    assert s[k] == s[..l][k];
    assert s[l] == s[l..][0];
  }

  lemma {:induction false} OnMonitorConcat(a: seq<Entry>, b: seq<Entry>, m: nat)
    ensures OnMonitor(a + b, m) == OnMonitor(a, m) + OnMonitor(b, m)
    decreases |a|
  {
    if a == [] {
      assert a + b == b;
    } else {
      var ab := a + b;
      assert ab[0] == a[0] && ab[1..] == a[1..] + b;
      OnMonitorConcat(a[1..], b, m);
      var h := if a[0].monitor == m then [a[0]] else [];
      calc {
        OnMonitor(ab, m);
        h + OnMonitor(a[1..] + b, m);
        h + (OnMonitor(a[1..], m) + OnMonitor(b, m));
        (h + OnMonitor(a[1..], m)) + OnMonitor(b, m);
      }
    }
  }

  /** In a sorted list whose head is on a monitor above `m`, nothing is on `m`. */
  lemma {:induction false} OnMonitorAbove(s: seq<Entry>, m: nat)
    requires SortedByMonitor(s) && s != [] && s[0].monitor > m
    ensures OnMonitor(s, m) == []
    decreases |s|
  {
    if |s| > 1 {
      assert s[1..][0] == s[1];
      OnMonitorAbove(s[1..], m);
    }
  }

  lemma {:induction false} InsertMultiset(s: seq<Entry>, e: Entry)
    ensures multiset(Insert(s, e)) == multiset(s) + multiset{e}
    decreases |s|
  {
    if s != [] && e.monitor >= s[0].monitor {
      InsertMultiset(s[1..], e);
      assert s == [s[0]] + s[1..];
    }
  }

  lemma {:induction false} InsertMembers(s: seq<Entry>, e: Entry)
    ensures forall x :: x in Insert(s, e) <==> x in s || x == e
    decreases |s|
  {
    if s != [] && e.monitor >= s[0].monitor {
      InsertMembers(s[1..], e);
      assert s == [s[0]] + s[1..];
    }
  }

  lemma {:induction false} InsertSorted(s: seq<Entry>, e: Entry)
    requires SortedByMonitor(s)
    ensures SortedByMonitor(Insert(s, e))
    decreases |s|
  {
    var r := Insert(s, e);
    if s == [] {
    } else if e.monitor < s[0].monitor {
      assert r == [e] + s;
      forall i, j | 0 <= i < j < |r| ensures r[i].monitor <= r[j].monitor {
        if i == 0 {
          assert r[j] == s[j - 1];
        } else {
          assert r[i] == s[i - 1] && r[j] == s[j - 1];
        }
      }
    } else {
      var rest := Insert(s[1..], e);
      InsertSorted(s[1..], e);
      InsertMembers(s[1..], e);
      assert r == [s[0]] + rest;
      forall i, j | 0 <= i < j < |r| ensures r[i].monitor <= r[j].monitor {
        assert r[j] == rest[j - 1];
        if i > 0 {
          assert r[i] == rest[i - 1];
        } else {
          var y := rest[j - 1];
          assert y in rest;
          if y != e {
            var k :| 0 <= k < |s[1..]| && s[1..][k] == y;
            assert s[k + 1] == y;
          }
        }
      }
    }
  }

  lemma SortedTail(s: seq<Entry>)
    requires SortedByMonitor(s) && s != []
    ensures SortedByMonitor(s[1..])
  {
    forall i, j | 0 <= i < j < |s[1..]| ensures s[1..][i].monitor <= s[1..][j].monitor {
      assert s[1..][i] == s[i + 1] && s[1..][j] == s[j + 1];
    }
  }

  lemma OnMonitorSingle(x: Entry, m: nat)
    ensures OnMonitor([x], m) == if x.monitor == m then [x] else []
  {
    assert [x][1..] == [];
  }

  /** Inserting `e` appends it to the entries of its own monitor and leaves
      the other monitors' entries as they were. */
  lemma {:induction false} InsertOnMonitor(s: seq<Entry>, e: Entry, m: nat)
    requires SortedByMonitor(s)
    ensures OnMonitor(Insert(s, e), m) == OnMonitor(s, m) + (if e.monitor == m then [e] else [])
    decreases |s|
  {
    var added := if e.monitor == m then [e] else [];
    OnMonitorSingle(e, m);
    if s == [] {
      assert Insert(s, e) == [e];
    } else if e.monitor < s[0].monitor {
      assert Insert(s, e) == [e] + s;
      OnMonitorConcat([e], s, m);
      if e.monitor == m {
        OnMonitorAbove(s, m);
      }
    } else {
      var x, tail := s[0], s[1..];
      var rest := Insert(tail, e);
      SortedTail(s);
      InsertOnMonitor(tail, e, m);
      assert s == [x] + tail;
      assert Insert(s, e) == [x] + rest;
      OnMonitorConcat([x], rest, m);
      OnMonitorConcat([x], tail, m);
      assert OnMonitor(Insert(s, e), m) == OnMonitor([x], m) + (OnMonitor(tail, m) + added);
    }
  }

  /** Sorting is a permutation of its input. */
  lemma {:induction false} SortPermutes(s: seq<Entry>)
    ensures multiset(SortByMonitor(s)) == multiset(s)
    ensures |SortByMonitor(s)| == |s|
    decreases |s|
  {
    if s != [] {
      var front, last := s[..|s| - 1], s[|s| - 1];
      SortPermutes(front);
      InsertMultiset(SortByMonitor(front), last);
      assert s == front + [last];
      assert |SortByMonitor(s)| == |multiset(SortByMonitor(s))|;
    }
  }

  /** Sorting orders the entries by monitor. */
  lemma {:induction false} SortSorted(s: seq<Entry>)
    ensures SortedByMonitor(SortByMonitor(s))
    decreases |s|
  {
    if s != [] {
      SortSorted(s[..|s| - 1]);
      InsertSorted(SortByMonitor(s[..|s| - 1]), s[|s| - 1]);
    }
  }

  /** Sorting keeps the input order of the entries of each monitor. */
  lemma {:induction false} SortStable(s: seq<Entry>, m: nat)
    ensures OnMonitor(SortByMonitor(s), m) == OnMonitor(s, m)
    decreases |s|
  {
    if s != [] {
      var front, last := s[..|s| - 1], s[|s| - 1];
      SortStable(front, m);
      SortSorted(front);
      InsertOnMonitor(SortByMonitor(front), last, m);
      assert s == front + [last];
      OnMonitorConcat(front, [last], m);
      OnMonitorSingle(last, m);
    }
  }

  /** The sort is a stable sort: ascending by monitor, a permutation, and on
      each monitor the entries keep their input order. */
  lemma SortByMonitorIsStableSort(s: seq<Entry>)
    ensures SortedByMonitor(SortByMonitor(s))
    ensures multiset(SortByMonitor(s)) == multiset(s)
    ensures forall m :: OnMonitor(SortByMonitor(s), m) == OnMonitor(s, m)
    ensures |SortByMonitor(s)| == |s|
  {
    SortSorted(s);
    SortPermutes(s);
    forall m ensures OnMonitor(SortByMonitor(s), m) == OnMonitor(s, m) {
      SortStable(s, m);
    }
  }

  lemma NamesOfConcat(a: seq<Entry>, b: seq<Entry>)
    ensures NamesOf(a + b) == NamesOf(a) + NamesOf(b)
  {
  }

  /** Inserting an entry adds its name. */
  lemma {:induction false} InsertNames(s: seq<Entry>, e: Entry)
    ensures multiset(NamesOf(Insert(s, e))) == multiset(NamesOf(s)) + multiset{e.name}
    decreases |s|
  {
    if s == [] {
      assert NamesOf([e]) == [e.name];
    } else if e.monitor < s[0].monitor {
      NamesOfConcat([e], s);
      assert NamesOf([e]) == [e.name];
    } else {
      InsertNames(s[1..], e);
      NamesOfConcat([s[0]], Insert(s[1..], e));
      NamesOfConcat([s[0]], s[1..]);
      assert s == [s[0]] + s[1..];
    }
  }

  /** Sorting permutes the names. */
  lemma {:induction false} SortNames(s: seq<Entry>)
    ensures multiset(NamesOf(SortByMonitor(s))) == multiset(NamesOf(s))
    decreases |s|
  {
    if s != [] {
      var front, last := s[..|s| - 1], s[|s| - 1];
      SortNames(front);
      InsertNames(SortByMonitor(front), last);
      assert s == front + [last];
      NamesOfConcat(front, [last]);
      assert NamesOf([last]) == [last.name];
    }
  }
}
