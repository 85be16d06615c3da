/** The IPC listener of src/wm/ipc/listen.rs: decoding the raw bytes a
    client writes, answering it, and turning `show`/`hide` commands into
    display actions on whole bars or on components of bars. */
module IpcListen {
  import opened Wrappers
  import opened Seqs
  import Utf8

  type Byte = Utf8.Byte

  /** The size of the buffer one client message is read into. */
  const BufferSize: nat := 256

  /** A selector of an IPC command: `#name` or `.name`. */
  datatype Selector = Id(name: string) | Class(name: string)

  /** The commands the listener acts on; every other command is `Other`. */
  datatype Command =
    | ReloadTheme(themePath: Option<string>)
    | ReloadConfig(configPath: Option<string>)
    | Show(selectors: seq<Selector>)
    | Hide(selectors: seq<Selector>)
    | Other

  /** What the main loop asks of the window-manager utilities. */
  datatype Action =
    | LoadTheme(themePath: Option<string>)
    | Reload(configPath: Option<string>)
    | DisplayBars(bars: seq<string>, visible: bool)
    | DisplayComponents(bars: seq<string>, selectors: seq<Selector>, visible: bool)

  // ---------------------------------------------------------------------
  // Selectors

  /** A selector that names a bar: an id selector whose name is a bar name. */
  predicate NamesBar(sel: Selector, barNames: seq<string>) {
    sel.Id? && sel.name in barNames
  }

  function SelectorNames(selectors: seq<Selector>): seq<string> {
    seq(|selectors|, i requires 0 <= i < |selectors| => selectors[i].name)
  }

  /** `get_bars_from_selectors`: the names of the selectors that name a bar,
      in selector order. */
  function BarsFromSelectors(selectors: seq<Selector>, barNames: seq<string>): (bars: seq<string>)
    ensures |bars| <= |selectors|
    ensures forall b :: b in bars ==> b in barNames && Id(b) in selectors
    ensures |bars| == |selectors| <==> forall i :: 0 <= i < |selectors| ==> NamesBar(selectors[i], barNames)
    decreases |selectors|
  {
    if selectors == [] then []
    else
      var rest := BarsFromSelectors(selectors[1..], barNames);
      if NamesBar(selectors[0], barNames) then [selectors[0].name] + rest else rest
  }

  /** What the main loop does with a command received over IPC, given the
      current bar names; `None` for a command it ignores. */
  function OnCommand(cmd: Command, barNames: seq<string>): Option<Action> {
    match cmd
    case ReloadTheme(path) => Some(LoadTheme(path))
    case ReloadConfig(path) => Some(Reload(path))
    case Show(selectors) => Some(DisplayAction(selectors, barNames, true))
    case Hide(selectors) => Some(DisplayAction(selectors, barNames, false))
    case Other => None
  }

  /** The shared body of the `Show` and `Hide` arms. */
  function DisplayAction(selectors: seq<Selector>, barNames: seq<string>, visible: bool): Action {
    var bars := BarsFromSelectors(selectors, barNames);
    if |selectors| == |bars| then DisplayBars(bars, visible)
    else DisplayComponents(bars, selectors, visible)
  }

  // ---------------------------------------------------------------------
  // The client stream

  /** The buffer after one read: the bytes received (a read fills at most the
      whole buffer), then the zeros it was created with.  A failed read
      leaves it all zeros. */
  function FilledBuffer(received: Option<seq<Byte>>): (buf: seq<Byte>)
    requires received.Some? ==> |received.value| <= BufferSize
    ensures |buf| == BufferSize
  {
    var data := received.GetOr([]);
    data + seq(BufferSize - |data|, _ => 0)
  }

  /** Drops every zero byte and maps each remaining byte to the character
      with that code point. */
  function DecodeBuffer(buf: seq<Byte>): (input: string)
    ensures |input| <= |buf|
    decreases |buf|
  {
    if buf == [] then []
    else (if buf[0] != 0 then [buf[0] as char] else []) + DecodeBuffer(buf[1..])
  }

  /** The outcome of `handle_stream`: the reply written back to the client
      and the `(input, command)` pair forwarded to the main loop, if any. */
  datatype StreamOutcome = StreamOutcome(reply: string, forwarded: Option<(string, Command)>)

  /** `handle_stream`, with `parse` standing for `ipc::parser::parse_message`,
      `display` for the `Display` formatting of a command and `debug` for
      the `Debug` formatting (quoting) of a string. */
  function HandleStream(received: Option<seq<Byte>>, parse: string -> Option<Command>,
                        display: Command -> string, debug: string -> string): StreamOutcome
    requires received.Some? ==> |received.value| <= BufferSize
  {
    var input := DecodeBuffer(FilledBuffer(received));
    match parse(input)
    case Some(cmd) => StreamOutcome(display(cmd), Some((input, cmd)))
    case None => StreamOutcome("e:cannot parse " + debug(input), None)
  }

  // ---------------------------------------------------------------------
  // Lemmas

  /** The bars keep the order of their selectors. */
  lemma {:induction false} BarsInSelectorOrder(selectors: seq<Selector>, barNames: seq<string>)
    ensures Subsequence(BarsFromSelectors(selectors, barNames), SelectorNames(selectors))
    decreases |selectors|
  {
    if selectors != [] {
      var names := SelectorNames(selectors);
      BarsInSelectorOrder(selectors[1..], barNames);
      assert SelectorNames(selectors[1..]) == names[1..];
      var rest := BarsFromSelectors(selectors[1..], barNames);
      if !NamesBar(selectors[0], barNames) {
        SubsequenceDropHead(rest, names);
      }
    }
  }

  /** Every bar named by some id selector is in the result, so the result is
      exactly the bars the selectors name. */
  lemma {:induction false} BarsComplete(selectors: seq<Selector>, barNames: seq<string>, b: string)
    ensures b in BarsFromSelectors(selectors, barNames) <==> b in barNames && Id(b) in selectors
    decreases |selectors|
  {
    if selectors != [] {
      BarsComplete(selectors[1..], barNames, b);
      assert Id(b) in selectors <==> selectors[0] == Id(b) || Id(b) in selectors[1..];
    }
  }

  /** `show` and `hide` act on whole bars exactly when every selector is the
      id of an existing bar, and otherwise on components; `show` makes
      visible and `hide` hides. */
  lemma ShowHideDecision(selectors: seq<Selector>, barNames: seq<string>, show: bool)
    ensures var a := OnCommand(if show then Show(selectors) else Hide(selectors), barNames);
            a.Some?
            && (a.value.DisplayBars? <==> forall i :: 0 <= i < |selectors| ==> NamesBar(selectors[i], barNames))
            && (a.value.DisplayBars? || a.value.DisplayComponents?)
            && a.value.visible == show
            && (a.value.DisplayBars? ==> a.value.bars == SelectorNames(selectors))
            && (a.value.DisplayComponents? ==> a.value.selectors == selectors)
  {
    if forall i :: 0 <= i < |selectors| ==> NamesBar(selectors[i], barNames) {
      AllBars(selectors, barNames);
    }
  }

  lemma {:induction false} AllBars(selectors: seq<Selector>, barNames: seq<string>)
    requires forall i :: 0 <= i < |selectors| ==> NamesBar(selectors[i], barNames)
    ensures BarsFromSelectors(selectors, barNames) == SelectorNames(selectors)
    decreases |selectors|
  {
    if selectors != [] {
      AllBars(selectors[1..], barNames);
      assert SelectorNames(selectors) == [selectors[0].name] + SelectorNames(selectors[1..]);
    }
  }

  /** The decoded input never contains a NUL character and every character
      is a single byte. */
  lemma {:induction false} DecodeBufferChars(buf: seq<Byte>)
    ensures forall i :: 0 <= i < |DecodeBuffer(buf)| ==>
              DecodeBuffer(buf)[i] != '\0' && DecodeBuffer(buf)[i] as int < 0x100
    decreases |buf|
  {
    if buf != [] {
      DecodeBufferChars(buf[1..]);
    }
  }

  /** Decoding drops exactly the zero bytes: the input is as long as the
      buffer minus its zeros, and the bytes come back in order. */
  lemma {:induction false} DecodeDropsZeros(buf: seq<Byte>)
    ensures |DecodeBuffer(buf)| == |NonZero(buf)| == |buf| - multiset(buf)[0]
    ensures forall i :: 0 <= i < |NonZero(buf)| ==> DecodeBuffer(buf)[i] as int == NonZero(buf)[i]
    decreases |buf|
  {
    if buf != [] {
      DecodeDropsZeros(buf[1..]);
      assert buf == [buf[0]] + buf[1..];
    }
  }

  /** The bytes of `buf` other than zero, in order. */
  function NonZero(buf: seq<Byte>): seq<Byte> {
    if buf == [] then [] else (if buf[0] != 0 then [buf[0]] else []) + NonZero(buf[1..])
  }

  lemma {:induction false} DecodeZeros(n: nat)
    ensures DecodeBuffer(seq(n, _ => 0)) == []
    decreases n
  {
    if n > 0 {
      assert seq(n, _ => 0)[1..] == seq(n - 1, _ => 0);
      DecodeZeros(n - 1);
    }
  }

  lemma {:induction false} DecodeConcat(a: seq<Byte>, b: seq<Byte>)
    ensures DecodeBuffer(a + b) == DecodeBuffer(a) + DecodeBuffer(b)
    decreases |a|
  {
    if a == [] {
      assert a + b == b;
    } else {
      assert (a + b)[1..] == a[1..] + b;
      DecodeConcat(a[1..], b);
    }
  }

  /** A message of at most 256 bytes without zero bytes reaches the parser
      intact; a failed read reaches it as the empty string. */
  lemma ReceivedRoundTrip(data: seq<Byte>)
    requires |data| <= BufferSize && 0 !in data
    ensures var input := DecodeBuffer(FilledBuffer(Some(data)));
            |input| == |data| && forall i :: 0 <= i < |data| ==> input[i] as int == data[i]
    ensures DecodeBuffer(FilledBuffer(None)) == []
  {
    DecodeConcat(data, seq(BufferSize - |data|, _ => 0));
    DecodeZeros(BufferSize - |data|);
    DecodeZeros(BufferSize);
    assert [] + seq(BufferSize, _ => 0) == seq(BufferSize, _ => 0);
    NoZeroDecode(data);
  }

  lemma {:induction false} NoZeroDecode(data: seq<Byte>)
    requires 0 !in data
    ensures |DecodeBuffer(data)| == |data|
    ensures forall i :: 0 <= i < |data| ==> DecodeBuffer(data)[i] as int == data[i]
    decreases |data|
  {
    if data != [] {
      NoZeroDecode(data[1..]);
    }
  }

  /** The decoded input is forwarded, with its command, exactly when it
      parses, and the client is told the command; otherwise nothing is
      forwarded and the reply is an error starting "e:cannot parse ". */
  lemma ForwardOnlyParsed(received: Option<seq<Byte>>, parse: string -> Option<Command>,
                          display: Command -> string, debug: string -> string)
    requires received.Some? ==> |received.value| <= BufferSize
    ensures var input := DecodeBuffer(FilledBuffer(received));
            var out := HandleStream(received, parse, display, debug);
            && (out.forwarded.Some? <==> parse(input).Some?)
            && (out.forwarded.Some? ==> out.forwarded.value == (input, parse(input).value)
                                        && out.reply == display(parse(input).value)
                                        && |input| <= BufferSize)
            && (out.forwarded.None? ==> |out.reply| >= 15 && out.reply[..15] == "e:cannot parse ")
  {
  }
}
