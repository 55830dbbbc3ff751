/** The console line as the terminal shows it, while log lines are interleaved with typing. */
module ConsoleRedraw {
  import opened Bytes
  import opened LineEditor

  const TX_STREAM_LEN: nat := 2304
  const PRINT_STRING_MAX: nat := 2046

  const ESC: byte := 27
  const BRACKET: byte := 91
  const KEY_K: byte := 75

  /** Carriage return, then erase to the end of the line. */
  const ERASE_LINE: Octets := [CR, ESC, BRACKET, KEY_K]

  // ---- The terminal ---------------------------------------------------------------

  datatype Mode = Plain | Escape | Csi

  /** The last line of the terminal and the cursor on it. */
  datatype Term = Term(line: Octets, col: nat, mode: Mode)

  predicate Printable(c: byte) { 32 <= c < 127 }

  predicate AllPrintable(o: Octets) {
    forall i :: 0 <= i < |o| ==> Printable(o[i])
  }

  /** Text that may span lines, but neither moves the cursor back nor starts an escape sequence. */
  predicate Steady(o: Octets) {
    ESC !in o && CR !in o && BS !in o
  }

  function Spaces(n: nat): Octets { seq(n, _ => SPACE) }

  function Put(t: Term, c: byte): (t': Term)
    requires t.col <= |t.line|
    ensures t'.col <= |t'.line|
  {
    match t.mode
    case Escape => t.(mode := if c == BRACKET then Csi else Plain)
    case Csi => if c == KEY_K then t.(line := t.line[..t.col], mode := Plain) else t.(mode := Plain)
    case Plain =>
      if c == ESC then t.(mode := Escape)
      else if c == CR then t.(col := 0)
      else if c == LF then t.(line := Spaces(t.col))
      else if c == BS then t.(col := if t.col > 0 then t.col - 1 else 0)
      else if !Printable(c) then t
      else if t.col == |t.line| then t.(line := t.line + [c], col := t.col + 1)
      else t.(line := t.line[t.col := c], col := t.col + 1)
  }

  function Puts(t: Term, o: Octets): (t': Term)
    requires t.col <= |t.line|
    ensures t'.col <= |t'.line|
    decreases |o|
  {
    if o == [] then t else Puts(Put(t, o[0]), o[1..])
  }

  lemma {:induction false} PutsConcat(t: Term, a: Octets, b: Octets)
    requires t.col <= |t.line|
    ensures Puts(t, a + b) == Puts(Puts(t, a), b)
    decreases |a|
  {
    if a == [] {
      assert a + b == b;
    } else {
      assert (a + b)[1..] == a[1..] + b;
      PutsConcat(Put(t, a[0]), a[1..], b);
    }
  }

  /** The line shows exactly s, with the cursor behind it and nothing but blanks after that. */
  predicate Shows(t: Term, s: Octets) {
    && t.mode == Plain && t.col == |s| <= |t.line| && t.line[..t.col] == s
    && forall i :: t.col <= i < |t.line| ==> t.line[i] == SPACE
  }

  lemma {:induction false} ShowText(t: Term, s: Octets, o: Octets)
    requires Shows(t, s) && AllPrintable(o)
    ensures Shows(Puts(t, o), s + o)
    decreases |o|
  {
    if o == [] {
      assert s + o == s;
    } else {
      assert Printable(o[0]);
      assert Put(t, o[0]).line[..|s|] == t.line[..|s|];
      assert Put(t, o[0]).line[..|s| + 1] == s + [o[0]];
      ShowText(Put(t, o[0]), s + [o[0]], o[1..]);
      assert s + [o[0]] + o[1..] == s + o;
    }
  }

  lemma PutsPair(t: Term, a: byte, b: byte)
    requires t.col <= |t.line|
    ensures Puts(t, [a, b]) == Put(Put(t, a), b)
  {
    assert [a, b][1..] == [b];
    assert [b][1..] == [];
    assert Puts(Put(t, a), [b]) == Put(Put(t, a), b);
  }

  lemma {:induction false} PutsPlain(t: Term, o: Octets)
    requires t.col <= |t.line| && t.mode == Plain && ESC !in o
    ensures Puts(t, o).mode == Plain
    decreases |o|
  {
    if o != [] {
      assert o[0] in o;
      PutsPlain(Put(t, o[0]), o[1..]);
    }
  }

  /** Steady text leaves nothing behind the cursor. */
  lemma {:induction false} ShowSteady(t: Term, s: Octets, o: Octets) returns (s': Octets)
    requires Shows(t, s) && Steady(o)
    ensures Shows(Puts(t, o), s')
    decreases |o|
  {
    if o == [] {
      s' := s;
    } else {
      assert o[0] in o;
      var next := Put(t, o[0]);
      assert Shows(next, next.line[..next.col]);
      s' := ShowSteady(next, next.line[..next.col], o[1..]);
    }
  }

  /** A line end starts an empty line, whatever the cursor stood on. */
  lemma ShowEol(t: Term)
    requires t.col <= |t.line| && t.mode == Plain
    ensures Shows(Puts(t, EOL), [])
  {
    PutsPair(t, CR, LF);
  }

  lemma ShowErase(t: Term)
    requires t.col <= |t.line| && t.mode == Plain
    ensures Shows(Puts(t, ERASE_LINE), [])
  {
    PutsConcat(t, [CR, ESC], [BRACKET, KEY_K]);
    PutsPair(t, CR, ESC);
    PutsPair(Put(Put(t, CR), ESC), BRACKET, KEY_K);
    assert [CR, ESC] + [BRACKET, KEY_K] == ERASE_LINE;
  }

  lemma ShowRubout(t: Term, s: Octets)
    requires Shows(t, s) && s != []
    ensures Shows(Puts(t, RUBOUT), s[..|s| - 1])
  {
    assert RUBOUT[1..] == [SPACE, BS];
    PutsPair(Put(t, BS), SPACE, BS);
    var t1 := Put(t, BS);
    var t2 := Put(t1, SPACE);
    assert t2.line[..|s| - 1] == t.line[..|s| - 1];
    assert t.line[..|s|][..|s| - 1] == t.line[..|s| - 1];
  }

  // ---- The console ------------------------------------------------------------------

  /** Where readline stands: not called; called, its index cleared; waiting for an octet; or interrupted by
      ctrl-C, its index cleared but the new prompt not yet written. */
  datatype Phase = Idle | Starting | Waiting | Interrupted

  /** Sent octets are on the terminal, queued ones still in the transmit stream. buf is
      pcInputBuffer[..ulInBufferIdx]; before is what preceded the prompt on its line. */
  datatype Con = Con(term: Term, sent: Octets, queue: Octets, phase: Phase, partialCommand: bool, buf: Octets,
                     before: Octets)

  datatype Action =
    | Begin                           // readline is called and clears its index
    | Prompt                          // it writes the prompt and sets the flag
    | Key(c: byte)                    // it handles one octet under the semaphore
    | CtrlC                           // it receives ctrl-C and clears its index
    | Restart                         // it writes the line end and the prompt after ctrl-C
    | Log(msg: Octets)                // the transmit task, having found its stream empty, queues a log line
    | Output(text: Octets, eol: bool) // a command prints
    | Drain(n: nat)                   // the transmit task sends queued octets

  /** What the transmit task queues for one log line. */
  function Redraw(c: Con, msg: Octets): Octets {
    (if c.partialCommand then ERASE_LINE else []) + msg + EOL
    + (if c.partialCommand then PROMPT + c.buf else [])
  }

  /** What is free in the transmit stream. It may have been refilled since the transmit task found it empty. */
  function Room(c: Con): nat {
    if |c.queue| <= TX_STREAM_LEN then TX_STREAM_LEN - |c.queue| else 0
  }

  /** The redraw is sent in pieces without waiting, each cut to the room left, so that a prefix of it is queued. */
  function Sent(c: Con, msg: Octets): Octets {
    Redraw(c, msg)[..Min(|Redraw(c, msg)|, Room(c))]
  }

  /** The redraw fits. */
  predicate Fits(c: Con, msg: Octets) {
    |Redraw(c, msg)| <= Room(c)
  }

  predicate Enabled(c: Con, x: Action) {
    match x
    case Begin => c.phase == Idle
    case Prompt => c.phase == Starting
    case Key(k) => c.phase == Waiting && k != CTRL_C && (Editing(k) || Printable(k))
    case CtrlC => c.phase == Waiting
    case Restart => c.phase == Interrupted
    case Log(msg) => ESC !in msg && 0 < |msg| <= PRINT_STRING_MAX
    case Output(text, _) => c.phase == Idle && Steady(text)
    case Drain(n) => n <= |c.queue|
  }

  function Screen(c: Con): Term
    requires c.term.col <= |c.term.line|
  {
    Puts(c.term, c.queue)
  }

  function BufOf(e: Edit, full: Octets): Octets {
    match e
    case Typing(b) => b
    case Line(b) => b
    case Discard => full
  }

  function Step(c: Con, x: Action): (c': Con)
    requires Enabled(c, x) && c.term.col <= |c.term.line|
    ensures c'.term.col <= |c'.term.line|
  {
    match x
    case Begin => c.(phase := Starting, buf := [])
    case Prompt =>
      c.(queue := c.queue + PROMPT, phase := Waiting, partialCommand := true,
         before := Screen(c).line[..Screen(c).col])
    case Key(k) =>
      var e := EditStep(c.buf, k);
      c.(queue := c.queue + EditEcho(c.buf, k), phase := if e.Typing? then Waiting else Idle,
         partialCommand := !e.Line?, buf := BufOf(e, c.buf + [k]))
    case CtrlC => c.(phase := Interrupted, buf := [])
    case Restart => c.(queue := c.queue + (EOL + PROMPT), phase := Waiting, before := [])
    case Log(msg) =>
      c.(queue := c.queue + Sent(c, msg), before := if c.partialCommand && Room(c) > 0 then [] else c.before)
    case Output(text, eol) => c.(queue := c.queue + text + if eol then EOL else [])
    case Drain(n) => c.(term := Puts(c.term, c.queue[..n]), sent := c.sent + c.queue[..n], queue := c.queue[n..])
  }

  /** While readline waits, the drained screen shows the prompt and the buffer on its last line, after
      whatever the prompt was printed behind; otherwise the cursor stands at the end of its line. */
  ghost predicate Consistent(c: Con) {
    && c.term.col <= |c.term.line| && AllPrintable(c.buf) && |c.buf| <= LINE_LEN_MAX
    && (c.phase == Starting ==> c.buf == [])
    && (c.phase == Interrupted ==> c.partialCommand && c.buf == [])
    && (c.phase == Waiting ==>
          c.partialCommand && |c.buf| < LINE_LEN_MAX && Shows(Screen(c), c.before + PROMPT + c.buf))
    && (exists s :: Shows(Screen(c), s))
  }

  /** Before the first call, whatever stands on the terminal's last line. */
  lemma InitialIsConsistent(line: Octets)
    ensures Consistent(Con(Term(line, |line|, Plain), [], [], Idle, false, [], []))
  {
    assert Shows(Screen(Con(Term(line, |line|, Plain), [], [], Idle, false, [], [])), line);
  }

  /** The two halves of ctrl-C are together the editor's step on that octet. */
  lemma CtrlCIsKey(c: Con)
    requires Consistent(c) && Enabled(c, CtrlC)
    ensures Enabled(Step(c, CtrlC), Restart)
    ensures var c' := Step(Step(c, CtrlC), Restart);
            && c'.phase == Waiting && EditStep(c.buf, CTRL_C) == Typing(c'.buf)
            && c'.queue == c.queue + EditEcho(c.buf, CTRL_C)
  {
  }

  lemma QueueMore(c: Con, o: Octets)
    requires c.term.col <= |c.term.line|
    ensures Screen(c.(queue := c.queue + o)) == Puts(Screen(c), o)
  {
    PutsConcat(c.term, c.queue, o);
  }

  lemma PromptShown(t: Term, s: Octets)
    requires Shows(t, s)
    ensures Shows(Puts(t, PROMPT), s + PROMPT)
  {
    ShowText(t, s, PROMPT);
  }

  lemma KeyShown(t: Term, before: Octets, buf: Octets, k: byte)
    requires Shows(t, before + PROMPT + buf) && AllPrintable(buf) && |buf| < LINE_LEN_MAX
    requires k != CTRL_C && (Editing(k) || Printable(k))
    ensures var t', e := Puts(t, EditEcho(buf, k)), EditStep(buf, k);
            && AllPrintable(BufOf(e, buf + [k])) && |BufOf(e, buf + [k])| <= LINE_LEN_MAX
            && (e.Typing? ==> |e.buf| < LINE_LEN_MAX && Shows(t', before + PROMPT + e.buf))
            && (e.Line? ==> Shows(t', []))
            && (e.Discard? ==> Shows(t', before + PROMPT + (buf + [k])))
            && exists s :: Shows(t', s)
  {
    var s := before + PROMPT + buf;
    if LineEnd(k) {
      if buf != [] { ShowEol(t); }
    } else if k == BS || k == DEL {
      if buf != [] {
        ShowRubout(t, s);
        assert s[..|s| - 1] == before + PROMPT + buf[..|buf| - 1];
      }
    } else {
      ShowText(t, s, [k]);
      assert s + [k] == before + PROMPT + (buf + [k]);
    }
  }

  lemma RestartShown(t: Term, s: Octets)
    requires Shows(t, s)
    ensures Shows(Puts(t, EOL + PROMPT), [] + PROMPT + [])
  {
    PutsConcat(t, EOL, PROMPT);
    ShowEol(t);
    PromptShown(Puts(t, EOL), []);
    assert [] + PROMPT == [] + PROMPT + [];
  }

  /** Whatever the line showed and whatever lines the message spans. */
  lemma RedrawShown(t: Term, c: Con, msg: Octets)
    requires t.col <= |t.line| && t.mode == Plain && ESC !in msg && AllPrintable(c.buf)
    ensures Shows(Puts(t, Redraw(c, msg)), if c.partialCommand then PROMPT + c.buf else [])
  {
    if c.partialCommand {
      PutsConcat(t, ERASE_LINE + msg + EOL, PROMPT + c.buf);
      PutsConcat(t, ERASE_LINE + msg, EOL);
      PutsConcat(t, ERASE_LINE, msg);
      ShowErase(t);
      PutsPlain(Puts(t, ERASE_LINE), msg);
      ShowEol(Puts(t, ERASE_LINE + msg));
      ShowText(Puts(t, ERASE_LINE + msg + EOL), [], PROMPT + c.buf);
      assert [] + (PROMPT + c.buf) == PROMPT + c.buf;
    } else {
      assert Redraw(c, msg) == msg + EOL;
      PutsConcat(t, msg, EOL);
      PutsPlain(t, msg);
      ShowEol(Puts(t, msg));
    }
  }

  /** A log line is queued whole, or dropped altogether. */
  predicate Whole(c: Con, x: Action) {
    x.Log? ==> Fits(c, x.msg) || Room(c) == 0
  }

  lemma StepIsConsistent(c: Con, x: Action)
    requires Consistent(c) && Enabled(c, x) && Whole(c, x)
    ensures Consistent(Step(c, x))
  {
    hide Puts, EditStep, EditEcho, Redraw, AllPrintable, Shows;
    var t := Screen(c);
    var s :| Shows(t, s);
    ShownIsLine(t, s);
    NoText();
    match x
    case Begin =>
      assert Screen(Step(c, x)) == t;
    case CtrlC =>
      assert Screen(Step(c, x)) == t;
    case Prompt =>
      QueueMore(c, PROMPT);
      PromptShown(t, s);
      assert s + PROMPT + [] == s + PROMPT;
    case Restart =>
      QueueMore(c, EOL + PROMPT);
      RestartShown(t, s);
      assert Shows(Screen(Step(c, x)), [] + PROMPT + []);
    case Key(k) =>
      QueueMore(c, EditEcho(c.buf, k));
      KeyShown(t, c.before, c.buf, k);
      assert Screen(Step(c, x)) == Puts(t, EditEcho(c.buf, k));
    case Log(msg) =>
      if Room(c) == 0 {
        assert c.queue + Sent(c, msg) == c.queue;
        assert Screen(Step(c, x)) == t;
      } else {
        assert Sent(c, msg) == Redraw(c, msg);
        QueueMore(c, Redraw(c, msg));
        RedrawShown(t, c, msg);
        assert [] + PROMPT + c.buf == PROMPT + c.buf;
        assert Shows(Screen(Step(c, x)), if c.partialCommand then PROMPT + c.buf else []);
      }
    case Output(text, eol) =>
      QueueMore(c, text);
      var s' := ShowSteady(t, s, text);
      ShownIsLine(Puts(t, text), s');
      if eol {
        QueueMore(c.(queue := c.queue + text), EOL);
        ShowEol(Puts(t, text));
        assert Shows(Screen(Step(c, x)), []);
      } else {
        assert c.queue + text + [] == c.queue + text;
        assert Shows(Screen(Step(c, x)), s');
      }
    case Drain(n) =>
      PutsConcat(c.term, c.queue[..n], c.queue[n..]);
      assert c.queue[..n] + c.queue[n..] == c.queue;
      assert Screen(Step(c, x)) == t;
  }

  lemma ShownIsLine(t: Term, s: Octets)
    requires Shows(t, s)
    ensures t.mode == Plain && t.col <= |t.line| && t.line[..t.col] == s
  {
  }

  lemma NoText()
    ensures AllPrintable([])
  {
  }

  ghost predicate IsRun(c: Con, xs: seq<Action>)
    requires c.term.col <= |c.term.line|
    decreases |xs|
  {
    xs == [] || (Enabled(c, xs[0]) && IsRun(Step(c, xs[0]), xs[1..]))
  }

  ghost function Run(c: Con, xs: seq<Action>): (c': Con)
    requires c.term.col <= |c.term.line| && IsRun(c, xs)
    ensures c'.term.col <= |c'.term.line|
    decreases |xs|
  {
    if xs == [] then c else Run(Step(c, xs[0]), xs[1..])
  }

  ghost predicate AllWhole(c: Con, xs: seq<Action>)
    requires c.term.col <= |c.term.line| && IsRun(c, xs)
    decreases |xs|
  {
    xs == [] || (Whole(c, xs[0]) && AllWhole(Step(c, xs[0]), xs[1..]))
  }

  /** Redraw consistency over every interleaving of typing, log lines, command output and transmission in which no
      redraw is cut off. */
  lemma {:induction false} RunIsConsistent(c: Con, xs: seq<Action>)
    requires Consistent(c) && IsRun(c, xs) && AllWhole(c, xs)
    ensures Consistent(Run(c, xs))
    decreases |xs|
  {
    if xs != [] {
      StepIsConsistent(c, xs[0]);
      RunIsConsistent(Step(c, xs[0]), xs[1..]);
    }
  }

  lemma ShownOnce(t: Term, s: Octets, s': Octets)
    requires Shows(t, s)
    ensures Shows(t, s') <==> s == s'
  {
  }

  /** What a cut redraw shows while somebody types, by the number of octets that were sent. */
  lemma CutShows(t: Term, c: Con, msg: Octets, k: nat)
    requires t.col <= |t.line| && t.mode == Plain && c.partialCommand && AllPrintable(msg) && AllPrintable(c.buf)
    requires 0 < k < |Redraw(c, msg)|
    ensures Shows(Puts(t, Redraw(c, msg)[..k]), PROMPT + c.buf)
            <==> |ERASE_LINE| <= k <= |ERASE_LINE| + |msg| && msg[..k - |ERASE_LINE|] == PROMPT + c.buf
  {
    hide Puts, Shows;
    var target, n := PROMPT + c.buf, |ERASE_LINE| + |msg|;
    if k < |ERASE_LINE| {
      CutErase(t, k);
      NotShown(Puts(t, ERASE_LINE[..k]), target);
      assert Redraw(c, msg)[..k] == ERASE_LINE[..k];
    } else if k <= n {
      var m := msg[..k - |ERASE_LINE|];
      CutMessage(t, m);
      ShownOnce(Puts(t, ERASE_LINE + m), m, target);
      assert Redraw(c, msg)[..k] == ERASE_LINE + m;
    } else if k == n + 1 {
      CutEol(t, msg);
      NotShown(Puts(t, (ERASE_LINE + msg) + [CR]), target);
      assert Redraw(c, msg)[..k] == (ERASE_LINE + msg) + [CR];
    } else {
      var j := k - n - |EOL|;
      CutPrompt(t, msg, target[..j]);
      ShownOnce(Puts(t, (ERASE_LINE + msg + EOL) + target[..j]), target[..j], target);
      assert Redraw(c, msg)[..k] == (ERASE_LINE + msg + EOL) + target[..j];
    }
  }

  lemma NotShown(t: Term, s: Octets)
    requires s != [] && (t.mode != Plain || t.col == 0)
    ensures !Shows(t, s)
  {
  }

  lemma CutMessage(t: Term, m: Octets)
    requires t.col <= |t.line| && t.mode == Plain && AllPrintable(m)
    ensures Shows(Puts(t, ERASE_LINE + m), m)
  {
    ShowErase(t);
    PutsConcat(t, ERASE_LINE, m);
    ShowText(Puts(t, ERASE_LINE), [], m);
    assert [] + m == m;
  }

  lemma CutEol(t: Term, msg: Octets)
    requires t.col <= |t.line| && t.mode == Plain && AllPrintable(msg)
    ensures Puts(t, (ERASE_LINE + msg) + [CR]).col == 0
  {
    CutMessage(t, msg);
    PutsConcat(t, ERASE_LINE + msg, [CR]);
    var t1 := Puts(t, ERASE_LINE + msg);
    assert Puts(t1, [CR]) == Puts(Put(t1, CR), []);
  }

  lemma CutPrompt(t: Term, msg: Octets, p: Octets)
    requires t.col <= |t.line| && t.mode == Plain && AllPrintable(msg) && AllPrintable(p)
    ensures Shows(Puts(t, (ERASE_LINE + msg + EOL) + p), p)
  {
    CutMessage(t, msg);
    PutsConcat(t, ERASE_LINE + msg, EOL);
    PutsConcat(t, ERASE_LINE + msg + EOL, p);
    ShowEol(Puts(t, ERASE_LINE + msg));
    ShowText(Puts(t, ERASE_LINE + msg + EOL), [], p);
    assert [] + p == p;
  }

  /** Cut inside the erasing sequence, the cursor stands at the left or the terminal awaits the rest of it. */
  lemma CutErase(t: Term, k: nat)
    requires t.col <= |t.line| && t.mode == Plain && 0 < k < |ERASE_LINE|
    ensures var t' := Puts(t, ERASE_LINE[..k]); t'.mode != Plain || t'.col == 0
  {
    if k == 1 {
      assert ERASE_LINE[..1] == [CR];
      assert Puts(t, [CR]) == Puts(Put(t, CR), []);
    } else if k == 2 {
      assert ERASE_LINE[..2] == [CR, ESC];
      PutsPair(t, CR, ESC);
    } else {
      assert ERASE_LINE[..3] == [CR, ESC] + [BRACKET];
      PutsConcat(t, [CR, ESC], [BRACKET]);
      PutsPair(t, CR, ESC);
      assert Puts(Put(Put(t, CR), ESC), [BRACKET]) == Puts(Put(Put(Put(t, CR), ESC), BRACKET), []);
    }
  }

  /** A one-line message that is logged while readline waits leaves the screen consistent exactly when its redraw fits,
      or nothing of it is sent, or what is sent of the message happens to read like the prompt and the buffer. */
  lemma LogIsConsistentIff(c: Con, msg: Octets)
    requires Consistent(c) && c.phase == Waiting && Enabled(c, Log(msg)) && AllPrintable(msg)
    ensures Consistent(Step(c, Log(msg)))
            <==> || Whole(c, Log(msg))
                 || (|ERASE_LINE| <= Room(c) <= |ERASE_LINE| + |msg|
                     && msg[..Room(c) - |ERASE_LINE|] == PROMPT + c.buf)
  {
    if Whole(c, Log(msg)) {
      StepIsConsistent(c, Log(msg));
    } else {
      hide Puts, Shows, Redraw;
      var s :| Shows(Screen(c), s);
      ShownIsLine(Screen(c), s);
      QueueMore(c, Sent(c, msg));
      CutShows(Screen(c), c, msg, Room(c));
      assert [] + PROMPT + c.buf == PROMPT + c.buf;
    }
  }

  // ---- What is transmitted -----------------------------------------------------

  function Everything(c: Con): Octets {
    c.sent + c.queue
  }

  /** What a log line or a command wants to see on the line. */
  function Payload(x: Action): Option<Octets> {
    match x
    case Log(msg) => Some(msg + [13, 10])
    case Output(text, eol) => Some(if eol then text + [13, 10] else text)
    case _ => None
  }

  function Payloads(xs: seq<Action>): seq<Octets> {
    if xs == [] then []
    else (if Payload(xs[0]).Some? then [Payload(xs[0]).value] else []) + Payloads(xs[1..])
  }

  /** The parts occur in out, in this order, without overlap. */
  ghost predicate ContainsInOrder(out: Octets, parts: seq<Octets>)
    decreases |parts|
  {
    parts == [] || exists i: nat :: OccursAt(out, i, parts[0]) && ContainsInOrder(out[i + |parts[0]|..], parts[1..])
  }

  predicate OccursAt(out: Octets, i: nat, part: Octets) {
    i + |part| <= |out| && out[i..i + |part|] == part
  }

  lemma MoreInFront(front: Octets, out: Octets, parts: seq<Octets>)
    requires ContainsInOrder(out, parts)
    ensures ContainsInOrder(front + out, parts)
  {
    if parts != [] {
      var i: nat :| OccursAt(out, i, parts[0]) && ContainsInOrder(out[i + |parts[0]|..], parts[1..]);
      assert (front + out)[|front| + i..|front| + i + |parts[0]|] == out[i..i + |parts[0]|];
      assert (front + out)[|front| + i + |parts[0]|..] == out[i + |parts[0]|..];
      assert OccursAt(front + out, |front| + i, parts[0]);
    }
  }

  lemma PartFirst(more: Octets, i: nat, part: Octets, out: Octets, parts: seq<Octets>)
    requires OccursAt(more, i, part) && ContainsInOrder(out, parts)
    ensures ContainsInOrder(more + out, [part] + parts)
  {
    var rest := more[i + |part|..];
    MoreInFront(rest, out, parts);
    assert (more + out)[i..i + |part|] == more[i..i + |part|];
    assert (more + out)[i + |part|..] == rest + out;
    assert ([part] + parts)[1..] == parts;
    assert OccursAt(more + out, i, ([part] + parts)[0]);
  }

  /** A log line that fits: the message and its line end go out, behind nothing or the erasing sequence alone, and the
      prompt and the buffer follow when somebody types. */
  lemma LogTransmits(c: Con, msg: Octets)
    requires c.term.col <= |c.term.line| && Enabled(c, Log(msg)) && Fits(c, msg)
    ensures Everything(Step(c, Log(msg)))
            == Everything(c) + (if c.partialCommand then [13, 27, 91, 75] + msg + [13, 10] + [62, 32] + c.buf
                                else msg + [13, 10])
  {
    assert Sent(c, msg) == Redraw(c, msg);
  }

  /** One step adds to what is transmitted, and takes nothing back. */
  lemma StepTransmits(c: Con, x: Action) returns (more: Octets, i: nat)
    requires c.term.col <= |c.term.line| && Enabled(c, x) && (x.Log? ==> Fits(c, x.msg))
    ensures Everything(Step(c, x)) == Everything(c) + more
    ensures Payload(x).Some? ==> OccursAt(more, i, Payload(x).value)
  {
    hide Puts;
    more, i := Everything(Step(c, x))[|Everything(c)|..], 0;
    match x
    case Log(msg) =>
      LogTransmits(c, msg);
      i := if c.partialCommand then 4 else 0;
      assert more[i..i + |msg| + 2] == msg + [13, 10];
    case Output(text, eol) =>
      assert more[0..|more|] == more == if eol then text + [13, 10] else text;
    case Drain(n) =>
      assert c.queue[..n] + c.queue[n..] == c.queue;
    case _ =>
  }

  ghost predicate AllFit(c: Con, xs: seq<Action>)
    requires c.term.col <= |c.term.line| && IsRun(c, xs)
    decreases |xs|
  {
    xs == [] || ((xs[0].Log? ==> Fits(c, xs[0].msg)) && AllFit(Step(c, xs[0]), xs[1..]))
  }

  /** Over every run in which no redraw is cut off, all log lines and all command output are transmitted whole, in
      order, each log line with its line end, and nothing that was transmitted before is lost. */
  lemma {:induction false} RunTransmits(c: Con, xs: seq<Action>) returns (more: Octets)
    requires c.term.col <= |c.term.line| && IsRun(c, xs) && AllFit(c, xs)
    ensures Everything(Run(c, xs)) == Everything(c) + more && ContainsInOrder(more, Payloads(xs))
    decreases |xs|
  {
    hide Step, Enabled, Fits, Everything, ContainsInOrder;
    if xs == [] {
      more := [];
      NoParts(c);
    } else {
      var first, i := StepTransmits(c, xs[0]);
      var rest := RunTransmits(Step(c, xs[0]), xs[1..]);
      more := first + rest;
      assert Everything(c) + first + rest == Everything(c) + (first + rest);
      if Payload(xs[0]).Some? {
        PartFirst(first, i, Payload(xs[0]).value, rest, Payloads(xs[1..]));
      } else {
        MoreInFront(first, rest, Payloads(xs[1..]));
        assert Payloads(xs) == Payloads(xs[1..]);
      }
    }
  }

  lemma NoParts(c: Con)
    ensures Everything(c) + [] == Everything(c) && ContainsInOrder([], [])
  {
  }

  /** The terminal has been given exactly the octets that were sent. */
  lemma {:induction false} RunShowsSent(start: Term, c: Con, xs: seq<Action>)
    requires start.col <= |start.line| && c.term == Puts(start, c.sent) && IsRun(c, xs)
    ensures Run(c, xs).term == Puts(start, Run(c, xs).sent)
    decreases |xs|
  {
    if xs != [] {
      if xs[0].Drain? {
        PutsConcat(start, c.sent, c.queue[..xs[0].n]);
      }
      RunShowsSent(start, Step(c, xs[0]), xs[1..]);
    }
  }

  /** An octet that the editor keeps is shown as kept exactly when it is printable: the editor also stores
      and echoes control characters, which the terminal interprets. */
  lemma KeptOctetShownIff(c: Con, k: byte)
    requires Consistent(c) && c.phase == Waiting && |c.buf| + 1 < LINE_LEN_MAX && !Editing(k)
    ensures Shows(Puts(Screen(c), EditEcho(c.buf, k)), c.before + PROMPT + (c.buf + [k])) <==> Printable(k)
  {
    var s := c.before + PROMPT + c.buf;
    assert s + [k] == c.before + PROMPT + (c.buf + [k]);
    assert [k][1..] == [];
    assert Puts(Screen(c), [k]) == Put(Screen(c), k);
    if Printable(k) {
      ShowText(Screen(c), s, [k]);
    }
  }

  /** A log line redraws the prompt and the buffer alone on the last line, whatever stood there and whatever
      lines the message itself spans. */
  lemma LogClearsLine(c: Con, msg: Octets)
    requires Consistent(c) && c.phase == Waiting && Enabled(c, Log(msg)) && Fits(c, msg)
    ensures Shows(Screen(Step(c, Log(msg))), PROMPT + c.buf)
  {
    hide Puts, Shows;
    var s :| Shows(Screen(c), s);
    ShownIsLine(Screen(c), s);
    QueueMore(c, Redraw(c, msg));
    assert Sent(c, msg) == Redraw(c, msg);
    RedrawShown(Screen(c), c, msg);
  }

  /** A redraw into an empty stream always fits, and the transmit task's own assertion holds. */
  lemma RedrawFits(c: Con, msg: Octets)
    requires Consistent(c) && c.queue == [] && |msg| <= PRINT_STRING_MAX
    ensures Fits(c, msg)
    ensures |msg| + |EOL| + LINE_LEN_MAX <= TX_STREAM_LEN
  {
  }
}
