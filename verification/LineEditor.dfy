/** The console's line editor: one readline call as a fold over the received octets. */
module LineEditor {
  import opened Bytes

  const LINE_LEN_MAX: nat := 128

  const NUL: byte := 0
  const CTRL_C: byte := 3
  const BS: byte := 8
  const LF: byte := 10
  const CR: byte := 13
  const SPACE: byte := 32
  const DEL: byte := 127

  const PROMPT: Octets := [62, 32]
  const EOL: Octets := [CR, LF]
  const RUBOUT: Octets := [BS, SPACE, BS]

  predicate LineEnd(c: byte) { c == LF || c == CR || c == NUL }

  predicate Editing(c: byte) { LineEnd(c) || c == BS || c == DEL || c == CTRL_C }

  /** Where a readline call stands: still typing, or about to return a line, or about to return nothing
      because the buffer filled up. */
  datatype Edit = Typing(buf: Octets) | Line(buf: Octets) | Discard

  function EditStep(buf: Octets, c: byte): Edit {
    if LineEnd(c) then if buf != [] then Line(buf) else Typing(buf)
    else if c == BS || c == DEL then Typing(if buf != [] then buf[..|buf| - 1] else buf)
    else if c == CTRL_C then Typing([])
    else if |buf| + 1 < LINE_LEN_MAX then Typing(buf + [c])
    else Discard
  }

  function EditEcho(buf: Octets, c: byte): Octets {
    if LineEnd(c) then if buf != [] then EOL else []
    else if c == BS || c == DEL then if buf != [] then RUBOUT else []
    else if c == CTRL_C then EOL + PROMPT
    else [c]
  }

  datatype Reading = Reading(edit: Edit, echo: Octets, rest: Octets)

  /** The fold: consumes octets until the call returns, or all of them while it still waits. */
  function ReadLine(buf: Octets, input: Octets): (r: Reading)
    ensures |r.rest| <= |input| && (!r.edit.Typing? ==> |r.rest| < |input|)
    ensures r.edit.Typing? ==> r.rest == []
    decreases |input|
  {
    if input == [] then Reading(Typing(buf), [], [])
    else
      var c := input[0];
      match EditStep(buf, c)
      case Typing(buf') =>
        var r := ReadLine(buf', input[1..]);
        r.(echo := EditEcho(buf, c) + r.echo)
      case done => Reading(done, EditEcho(buf, c), input[1..])
  }

  /** The fold from any editing state. */
  function Continue(e: Edit, input: Octets): Reading {
    if e.Typing? then ReadLine(e.buf, input) else Reading(e, [], input)
  }

  lemma ReadLineStep(buf: Octets, input: Octets)
    requires input != []
    ensures var r, r' := ReadLine(buf, input), Continue(EditStep(buf, input[0]), input[1..]);
            r.edit == r'.edit && r.rest == r'.rest && r.echo == EditEcho(buf, input[0]) + r'.echo
  {
    hide EditStep, EditEcho;
    assert EditEcho(buf, input[0]) + [] == EditEcho(buf, input[0]);
  }

  lemma ReadLineWaits(e: Edit, input: Octets)
    requires input == [] || !e.Typing?
    ensures Continue(e, input) == Reading(e, [], input)
  {
  }

  class Console {
    const inputBuffer: array<byte>
    var idx: nat
    var rx: Octets
    var tx: Octets
    var partialCommand: bool

    ghost predicate Valid()
      reads this
    {
      inputBuffer.Length == LINE_LEN_MAX && idx <= LINE_LEN_MAX
    }

    constructor (rx: Octets)
      ensures Valid() && fresh(inputBuffer) && this.rx == rx && tx == [] && !partialCommand
    {
      inputBuffer := new byte[LINE_LEN_MAX](_ => 0);
      idx, this.rx, tx, partialCommand := 0, rx, [], false;
    }

    method Write(o: Octets)
      modifies this`tx
      ensures tx == old(tx) + o
    {
      tx := tx + o;
    }

    /** The concrete fields hold the editing state e. */
    ghost predicate Holds(e: Edit, foundEol: bool, written: nat)
      reads this, inputBuffer
    {
      && Valid()
      && match e
         case Typing(buf) =>
           !foundEol && written == 0 && partialCommand && idx == |buf| < LINE_LEN_MAX && inputBuffer[..idx] == buf
         case Line(buf) =>
           && foundEol && !partialCommand && written == idx == |buf| < LINE_LEN_MAX
           && inputBuffer[..idx] == buf && inputBuffer[idx] == NUL
         case Discard => !foundEol && written == 0 && partialCommand && idx == LINE_LEN_MAX
    }

    /** Handles one received octet. */
    method Key(c: byte, ghost buf: Octets) returns (foundEol: bool, written: nat)
      requires Holds(Typing(buf), false, 0)
      modifies this`idx, this`tx, this`partialCommand, inputBuffer
      ensures Holds(EditStep(buf, c), foundEol, written) && tx == old(tx) + EditEcho(buf, c)
    {
      foundEol, written := false, 0;
      inputBuffer[idx] := c;
      assert inputBuffer[..idx] == buf;
      if LineEnd(c) {
        if idx > 0 {
          inputBuffer[idx] := NUL;
          written, foundEol := idx, true;
          Write(EOL);
          partialCommand := false;
        } else {
          inputBuffer[idx] := NUL;
          idx := 0;
        }
      } else if c == BS || c == DEL {
        if idx > 0 {
          inputBuffer[idx] := NUL;
          inputBuffer[idx - 1] := NUL;
          idx := idx - 1;
          Write(RUBOUT);
          assert inputBuffer[..idx] == buf[..|buf| - 1];
        }
      } else if c == CTRL_C {
        idx := 0;
        Write(EOL + PROMPT);
      } else {
        Write([c]);
        idx := idx + 1;
        assert inputBuffer[..idx] == buf + [c];
      }
    }

    /** One readline call. It has not returned while every received octet is consumed and the call
        still blocks; otherwise it returns the number of octets in the line. */
    method ReadLineCall() returns (returned: bool, written: nat)
      requires Valid()
      modifies this`idx, this`rx, this`tx, this`partialCommand, inputBuffer
      ensures var r := ReadLine([], old(rx));
              && rx == r.rest && tx == old(tx) + PROMPT + r.echo
              && Holds(r.edit, r.edit.Line?, written) && (returned <==> !r.edit.Typing?)
    {
      hide ReadLine, EditStep, EditEcho;
      idx, written := 0, 0;
      inputBuffer[LINE_LEN_MAX - 1] := NUL;
      Write(PROMPT);
      partialCommand := true;
      var foundEol := false;
      ghost var e, r0, before := Typing([]), ReadLine([], rx), tx;
      while rx != [] && idx < LINE_LEN_MAX && !foundEol
        invariant Holds(e, foundEol, written)
        invariant r0.edit == Continue(e, rx).edit && r0.rest == Continue(e, rx).rest
        invariant before + r0.echo == tx + Continue(e, rx).echo
        decreases |rx|
      {
        var c := rx[0];
        ReadLineStep(e.buf, rx);
        rx := rx[1..];
        foundEol, written := Key(c, e.buf);
        e := EditStep(e.buf, c);
      }
      ReadLineWaits(e, rx);
      returned := foundEol || idx == LINE_LEN_MAX;
    }
  }

  // ---- What a line is -----------------------------------------------------

  /** Octets that the editor keeps as they are. */
  predicate Clean(s: Octets) {
    forall i :: 0 <= i < |s| ==> !Editing(s[i])
  }

  /** Every returned line is nonempty, shorter than the buffer and free of editing characters. */
  lemma {:induction false} LinesAreClean(buf: Octets, input: Octets)
    requires Clean(buf) && |buf| < LINE_LEN_MAX
    ensures match ReadLine(buf, input).edit
            case Line(l) => 1 <= |l| < LINE_LEN_MAX && Clean(l)
            case Typing(b) => |b| < LINE_LEN_MAX && Clean(b)
            case Discard => true
    decreases |input|
  {
    if input != [] {
      match EditStep(buf, input[0])
      case Typing(buf') => LinesAreClean(buf', input[1..]);
      case _ =>
    }
  }

  /** What successive readline calls return for an input; [] stands for a call that returned nothing. */
  function Lines(input: Octets): (r: seq<Octets>)
    decreases |input|
  {
    var r := ReadLine([], input);
    match r.edit
    case Typing(_) => []
    case Line(l) => [l] + Lines(r.rest)
    case Discard => [[]] + Lines(r.rest)
  }

  /** Text as the console sends it. */
  function Text(lines: seq<Octets>): Octets {
    if lines == [] then [] else lines[0] + EOL + Text(lines[1..])
  }

  predicate Sendable(l: Octets) {
    1 <= |l| < LINE_LEN_MAX && Clean(l)
  }

  /** Typing clean octets only appends them. */
  lemma {:induction false} TypeClean(buf: Octets, l: Octets, rest: Octets)
    requires Clean(l) && |buf| + |l| < LINE_LEN_MAX
    ensures ReadLine(buf, l + rest).edit == ReadLine(buf + l, rest).edit
    ensures ReadLine(buf, l + rest).rest == ReadLine(buf + l, rest).rest
    decreases |l|
  {
    if l == [] {
      assert l + rest == rest && buf + l == buf;
    } else {
      assert !Editing(l[0]);
      assert (l + rest)[1..] == l[1..] + rest;
      assert (buf + [l[0]]) + l[1..] == buf + l;
      TypeClean(buf + [l[0]], l[1..], rest);
    }
  }

  // ---- Editing laws, in octets -----------------------------------------------

  /** Two inputs for which a call returns the same and leaves the same unread. */
  predicate SameReading(a: Octets, b: Octets) {
    ReadLine([], a).edit == ReadLine([], b).edit && ReadLine([], a).rest == ReadLine([], b).rest
  }

  lemma ReadOne(buf: Octets, c: byte, rest: Octets)
    ensures ([c] + rest)[1..] == rest
    ensures var e := EditStep(buf, c);
            && ReadLine(buf, [c] + rest).edit == Continue(e, rest).edit
            && ReadLine(buf, [c] + rest).rest == Continue(e, rest).rest
  {
    ReadLineStep(buf, [c] + rest);
  }

  /** Backspace and delete take the last character away again. */
  lemma EraseUndoes(l: Octets, x: byte, c: byte, rest: Octets)
    requires Clean(l) && !Editing(x) && |l| < 127 && (c == 8 || c == 127)
    ensures SameReading(l + [x, c] + rest, l + rest)
  {
    hide ReadLine;
    var tail := [c] + rest;
    TypeClean([], l, rest);
    TypeClean([], l + [x], tail);
    assert l + [x, c] + rest == (l + [x]) + tail;
    assert [] + l == l && [] + (l + [x]) == l + [x] && (l + [x])[..|l|] == l;
    ReadOne(l + [x], c, rest);
  }

  /** On an empty line they change nothing, and neither does a line end. */
  lemma NothingToEdit(c: byte, rest: Octets)
    requires c in {8, 127, 10, 13, 0}
    ensures SameReading([c] + rest, rest)
  {
    hide ReadLine;
    ReadOne([], c, rest);
  }

  /** Ctrl-C starts over. */
  lemma CtrlCStartsOver(l: Octets, rest: Octets)
    requires Clean(l) && |l| < 128
    ensures SameReading(l + [3] + rest, rest)
  {
    hide ReadLine;
    TypeClean([], l, [3] + rest);
    assert l + [3] + rest == l + ([3] + rest) && [] + l == l;
    ReadOne(l, 3, rest);
  }

  /** A line feed, a carriage return and a NUL return what was typed, and leave what follows unread. */
  lemma LineEndReturns(l: Octets, c: byte, rest: Octets)
    requires Clean(l) && 0 < |l| < 128 && c in {10, 13, 0}
    ensures ReadLine([], l + [c] + rest).edit == Line(l) && ReadLine([], l + [c] + rest).rest == rest
  {
    hide ReadLine;
    TypeClean([], l, [c] + rest);
    assert l + [c] + rest == l + ([c] + rest) && [] + l == l;
    ReadOne(l, c, rest);
  }

  /** The 128th character makes the call return nothing. */
  lemma FullLineIsDiscarded(l: Octets, x: byte, rest: Octets)
    requires Clean(l) && |l| == 127 && !Editing(x)
    ensures ReadLine([], l + [x] + rest).edit == Discard && ReadLine([], l + [x] + rest).rest == rest
  {
    hide ReadLine;
    TypeClean([], l, [x] + rest);
    assert l + [x] + rest == l + ([x] + rest) && [] + l == l;
    ReadOne(l, x, rest);
  }

  lemma LeadingLf(input: Octets)
    ensures Lines([LF] + input) == Lines(input)
  {
    assert ([LF] + input)[1..] == input;
    assert ReadLine([], [LF] + input).edit == ReadLine([], input).edit;
    assert ReadLine([], [LF] + input).rest == ReadLine([], input).rest;
  }

  /** One sent line is one returned line. */
  lemma OneLine(l: Octets, rest: Octets)
    requires Sendable(l)
    ensures Lines(l + EOL + rest) == [l] + Lines(rest)
  {
    var tail := [CR] + ([LF] + rest);
    TypeClean([], l, tail);
    assert [] + l == l;
    assert l + EOL + rest == l + tail;
    assert tail[1..] == [LF] + rest;
    assert ReadLine(l, tail) == Reading(Line(l), EOL, [LF] + rest);
    LeadingLf(rest);
  }

  /** The editor splits sent text into exactly the lines that were sent. */
  lemma {:induction false} LinesOfText(lines: seq<Octets>)
    requires forall i :: 0 <= i < |lines| ==> Sendable(lines[i])
    ensures Lines(Text(lines)) == lines
  {
    hide ReadLine, Lines, Sendable;
    if lines == [] {
      NoLines();
    } else {
      OneLine(lines[0], Text(lines[1..]));
      LinesOfText(lines[1..]);
    }
  }

  /** In octets: every line is followed by carriage return and line feed. */
  lemma TextExample()
    ensures Text([[97], [98, 99]]) == [97, 13, 10, 98, 99, 13, 10]
  {
    assert [[97], [98, 99]][1..] == [[98, 99]] && [[98, 99]][1..] == [];
    assert Text([[98, 99]]) == [98, 99] + [13, 10] + Text([]);
  }

  lemma NoLines()
    ensures Lines([]) == []
  {
  }
}
