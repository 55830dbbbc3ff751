/** The receive double buffer: interrupts fill one buffer while the receive task copies the other. */
module UartReceive {
  import opened Bytes

  const READ_SIZE: nat := 128

  /** Bit positions of the notification word; the flags stand above every length. */
  const ERROR_FLAG: nat := 0x8000_0000
  const BUFFER_A_FLAG: nat := 0x4000_0000
  const BUFFER_B_FLAG: nat := 0x2000_0000

  datatype Which = A | B

  function Other(w: Which): Which {
    if w == A then B else A
  }

  /** Length and flag in one word; the bits are disjoint, so the union is a sum. */
  function Notice(n: nat, w: Which): nat {
    n + if w == A then BUFFER_A_FLAG else BUFFER_B_FLAG
  }

  /** The masks of the receive task. */
  function LengthOf(v: nat): nat { v % BUFFER_B_FLAG }
  predicate HasA(v: nat) { v / BUFFER_A_FLAG % 2 == 1 }
  predicate HasB(v: nat) { v / BUFFER_B_FLAG % 2 == 1 }

  /** The masks recover what the interrupt packed. */
  lemma MasksRecover(n: nat, w: Which)
    requires n <= READ_SIZE
    ensures LengthOf(Notice(n, w)) == n && (HasA(Notice(n, w)) <==> w == A) && (HasB(Notice(n, w)) <==> w == B)
    ensures LengthOf(ERROR_FLAG) == 0 && !HasA(ERROR_FLAG) && !HasB(ERROR_FLAG)
  {
  }

  /** Both buffers, the armed one and how far it is filled, the pending notification, the value the task
      has taken but not yet copied, and the history: octets offered to the stream, data events, and octets
      whose notification was overwritten. */
  datatype Port = Port(a: Octets, b: Octets, armed: Which, filled: nat, pending: Option<nat>, inHand: Option<nat>,
                       offered: Octets, events: seq<Octets>, lost: nat)

  datatype Action = Receive(c: byte) | Event | Error | Take | Copy

  function BufferOf(p: Port, w: Which): Octets {
    if w == A then p.a else p.b
  }

  /** The octets a notification stands for. */
  function Data(p: Port, v: Option<nat>): Octets
    requires |p.a| == |p.b| == READ_SIZE
  {
    if v.None? || LengthOf(v.value) > READ_SIZE then []
    else if HasA(v.value) then p.a[..LengthOf(v.value)]
    else if HasB(v.value) then p.b[..LengthOf(v.value)]
    else []
  }

  predicate Shape(p: Port) {
    |p.a| == |p.b| == READ_SIZE && p.filled <= READ_SIZE
  }

  predicate Enabled(p: Port, x: Action) {
    match x
    case Receive(_) => p.filled < READ_SIZE
    case Take => p.pending.Some? && p.inHand.None?
    case Copy => p.inHand.Some?
    case _ => true
  }

  function Step(p: Port, x: Action): (q: Port)
    requires Shape(p) && Enabled(p, x)
    ensures Shape(q)
  {
    match x
    case Receive(c) =>
      if p.armed == A then p.(a := p.a[p.filled := c], filled := p.filled + 1)
      else p.(b := p.b[p.filled := c], filled := p.filled + 1)
    case Event =>
      if p.filled == 0 then p
      else p.(pending := Some(Notice(p.filled, p.armed)), armed := Other(p.armed), filled := 0,
              events := p.events + [BufferOf(p, p.armed)[..p.filled]], lost := p.lost + |Data(p, p.pending)|)
    case Error => p.(pending := Some(ERROR_FLAG), lost := p.lost + |Data(p, p.pending)|)
    case Take => p.(pending := None, inHand := p.pending)
    case Copy => p.(inHand := None, offered := p.offered + Data(p, p.inHand))
  }

  function Concat(e: seq<Octets>): Octets {
    if e == [] then [] else Concat(e[..|e| - 1]) + e[|e| - 1]
  }

  function Initial(a: Octets, b: Octets): Port {
    Port(a, b, A, 0, None, None, [], [], 0)
  }

  ghost predicate IsRun(p: Port, xs: seq<Action>)
    requires Shape(p)
    decreases |xs|
  {
    xs == [] || (Enabled(p, xs[0]) && IsRun(Step(p, xs[0]), xs[1..]))
  }

  ghost function Run(p: Port, xs: seq<Action>): (q: Port)
    requires Shape(p) && IsRun(p, xs)
    ensures Shape(q)
    decreases |xs|
  {
    if xs == [] then p else Run(Step(p, xs[0]), xs[1..])
  }

  /** A notification word is an error, or the length and flag of one buffer. */
  predicate WellFormed(v: Option<nat>) {
    v.Some? ==> v.value == ERROR_FLAG || exists n: nat, w :: 0 < n <= READ_SIZE && v.value == Notice(n, w)
  }

  predicate Names(v: Option<nat>, w: Which) {
    v.Some? && if w == A then HasA(v.value) else HasB(v.value)
  }

  /** In every state a pending notification does not name the armed buffer, and octets are accounted for. */
  ghost predicate Safe(p: Port) {
    && Shape(p) && WellFormed(p.pending) && WellFormed(p.inHand)
    && !Names(p.pending, p.armed)
    && |Concat(p.events)| == |p.offered| + |Data(p, p.inHand)| + |Data(p, p.pending)| + p.lost
  }

  lemma ConcatSnoc(e: seq<Octets>, x: Octets)
    ensures Concat(e + [x]) == Concat(e) + x
  {
    assert (e + [x])[..|e|] == e;
  }

  lemma DataOfNotice(p: Port, n: nat, w: Which)
    requires Shape(p) && n <= READ_SIZE
    ensures Data(p, Some(Notice(n, w))) == BufferOf(p, w)[..n]
    ensures Data(p, Some(ERROR_FLAG)) == []
  {
    MasksRecover(n, w);
  }

  lemma DataSize(p: Port, q: Port, v: Option<nat>)
    requires Shape(p) && Shape(q)
    ensures |Data(p, v)| == |Data(q, v)|
  {
  }

  lemma StepIsSafe(p: Port, x: Action)
    requires Safe(p) && Enabled(p, x)
    ensures Safe(Step(p, x))
  {
    hide LengthOf, HasA, HasB, Notice, Concat;
    var q := Step(p, x);
    DataSize(p, q, p.pending);
    DataSize(p, q, p.inHand);
    MasksRecover(p.filled, p.armed);
    if x.Event? && p.filled > 0 {
      ConcatSnoc(p.events, BufferOf(p, p.armed)[..p.filled]);
      DataOfNotice(q, p.filled, p.armed);
    }
    if x.Error? {
      DataOfNotice(q, 0, A);
    }
  }

  /** Safety and conservation over every run, whatever the timing: received octets are offered, in flight,
      or overwritten, and none is counted twice. */
  lemma {:induction false} RunIsSafe(p: Port, xs: seq<Action>)
    requires Safe(p) && IsRun(p, xs)
    ensures Safe(Run(p, xs))
    decreases |xs|
  {
    if xs != [] {
      StepIsSafe(p, xs[0]);
      RunIsSafe(Step(p, xs[0]), xs[1..]);
    }
  }

  /** The octets that the hardware received during a run. */
  function Received(xs: seq<Action>): Octets {
    if xs == [] then []
    else (if xs[0].Receive? then [xs[0].c] else []) + Received(xs[1..])
  }

  /** What was received and not yet announced stands in the armed buffer. */
  function Arriving(p: Port): Octets
    requires Shape(p)
  {
    BufferOf(p, p.armed)[..p.filled]
  }

  lemma StepReceives(p: Port, x: Action)
    requires Shape(p) && Enabled(p, x)
    ensures Concat(Step(p, x).events) + Arriving(Step(p, x))
            == Concat(p.events) + Arriving(p) + if x.Receive? then [x.c] else []
  {
    hide Concat, Notice, Data;
    var q := Step(p, x);
    match x
    case Receive(c) => assert Arriving(q) == Arriving(p) + [c];
    case Event =>
      if p.filled > 0 {
        ConcatSnoc(p.events, Arriving(p));
      }
    case _ =>
  }

  /** The data events of a run are exactly what the hardware received, in order and without gaps, up to what is still
      arriving. */
  lemma {:induction false} EventsAreReceived(p: Port, xs: seq<Action>)
    requires Shape(p) && IsRun(p, xs)
    ensures Concat(Run(p, xs).events) + Arriving(Run(p, xs)) == Concat(p.events) + Arriving(p) + Received(xs)
    decreases |xs|
  {
    hide Step, Concat, Arriving;
    if xs != [] {
      StepReceives(p, xs[0]);
      EventsAreReceived(Step(p, xs[0]), xs[1..]);
      var first := if xs[0].Receive? then [xs[0].c] else [];
      assert Concat(p.events) + Arriving(p) + (first + Received(xs[1..]))
             == Concat(p.events) + Arriving(p) + first + Received(xs[1..]);
    } else {
      assert Concat(p.events) + Arriving(p) + [] == Concat(p.events) + Arriving(p);
    }
  }

  // ---- Contents -----------------------------------------------------------------

  /** The task copies a buffer before the hardware writes to it again. */
  ghost predicate CopiesInTime(p: Port, xs: seq<Action>)
    requires Shape(p) && IsRun(p, xs)
    decreases |xs|
  {
    xs == [] || ((xs[0].Receive? ==> !Names(p.inHand, p.armed)) && CopiesInTime(Step(p, xs[0]), xs[1..]))
  }

  function InFlight(p: Port): Octets
    requires Shape(p)
  {
    Data(p, p.inHand) + Data(p, p.pending)
  }

  /** What was received so far, in order. */
  ghost predicate Faithful(p: Port) {
    Shape(p) && Concat(p.events) == p.offered + InFlight(p)
  }

  lemma SameData(p: Port, c: byte, v: Option<nat>)
    requires Shape(p) && p.filled < READ_SIZE && WellFormed(v) && !Names(v, p.armed)
    ensures Data(Step(p, Receive(c)), v) == Data(p, v)
  {
    if v.Some? && v.value != ERROR_FLAG {
      var n: nat, w :| 0 < n <= READ_SIZE && v.value == Notice(n, w);
      MasksRecover(n, w);
    }
  }

  lemma StepIsFaithful(p: Port, x: Action)
    requires Safe(p) && Enabled(p, x) && Faithful(p)
    requires x.Receive? ==> !Names(p.inHand, p.armed)
    requires Step(p, x).lost == p.lost
    ensures Faithful(Step(p, x))
  {
    hide LengthOf, HasA, HasB, Notice, Concat;
    var q := Step(p, x);
    match x
    case Receive(c) =>
      SameData(p, c, p.pending);
      SameData(p, c, p.inHand);
    case Event =>
      if p.filled > 0 {
        ConcatSnoc(p.events, BufferOf(p, p.armed)[..p.filled]);
        DataOfNotice(q, p.filled, p.armed);
        assert Data(p, p.pending) == [];
        assert p.offered + Data(p, p.inHand) + [] == p.offered + Data(p, p.inHand);
      }
    case Error => DataOfNotice(q, 0, A);
    case Take =>
    case Copy =>
  }

  lemma {:induction false} LostGrows(p: Port, xs: seq<Action>)
    requires Shape(p) && IsRun(p, xs)
    ensures p.lost <= Run(p, xs).lost
    decreases |xs|
  {
    if xs != [] {
      LostGrows(Step(p, xs[0]), xs[1..]);
    }
  }

  lemma {:induction false} RunIsFaithful(p: Port, xs: seq<Action>)
    requires Safe(p) && IsRun(p, xs) && CopiesInTime(p, xs) && Faithful(p)
    requires Run(p, xs).lost == p.lost
    ensures Faithful(Run(p, xs))
    decreases |xs|
  {
    if xs != [] {
      LostGrows(Step(p, xs[0]), xs[1..]);
      StepIsSafe(p, xs[0]);
      StepIsFaithful(p, xs[0]);
      RunIsFaithful(Step(p, xs[0]), xs[1..]);
    }
  }

  /** A pending notification stands for octets that have not been taken yet. */
  predicate DataPending(p: Port) {
    p.pending.Some? && p.pending.value != ERROR_FLAG
  }

  /** A schedule in which every data notification is taken before the next nonempty event or error. */
  ghost predicate TakesInTime(p: Port, xs: seq<Action>)
    requires Shape(p) && IsRun(p, xs)
    decreases |xs|
  {
    xs == [] || (((xs[0].Event? && p.filled > 0) || xs[0].Error? ==> !DataPending(p))
                 && TakesInTime(Step(p, xs[0]), xs[1..]))
  }

  lemma PendingHasData(p: Port)
    requires Safe(p)
    ensures DataPending(p) <==> |Data(p, p.pending)| > 0
  {
    if DataPending(p) {
      var n: nat, w :| 0 < n <= READ_SIZE && p.pending.value == Notice(n, w);
      DataOfNotice(p, n, w);
    } else {
      DataOfNotice(p, 0, A);
    }
  }

  /** Nothing is lost by exactly these schedules. */
  lemma {:induction false} NothingLostIff(p: Port, xs: seq<Action>)
    requires Safe(p) && IsRun(p, xs)
    ensures Run(p, xs).lost == p.lost <==> TakesInTime(p, xs)
    decreases |xs|
  {
    hide Safe, Data, DataPending;
    if xs != [] {
      StepIsSafe(p, xs[0]);
      StepLoses(p, xs[0]);
      LostGrows(Step(p, xs[0]), xs[1..]);
      NothingLostIff(Step(p, xs[0]), xs[1..]);
    }
  }

  lemma StepLoses(p: Port, x: Action)
    requires Safe(p) && Enabled(p, x)
    ensures Shape(p) && p.lost <= Step(p, x).lost
    ensures Step(p, x).lost == p.lost <==> ((x.Event? && p.filled > 0) || x.Error? ==> !DataPending(p))
  {
    hide Safe, Data, DataPending;
    SafeShape(p);
    PendingHasData(p);
  }

  lemma SafeShape(p: Port)
    requires Safe(p)
    ensures Shape(p)
  {
  }

  /** When buffers are copied in time, the stream is offered exactly the concatenation of the data events, up to what is
      still in flight, if and only if the schedule takes every data notification before the next one. */
  lemma OfferedIsReceived(a: Octets, b: Octets, xs: seq<Action>)
    requires |a| == |b| == READ_SIZE && IsRun(Initial(a, b), xs) && CopiesInTime(Initial(a, b), xs)
    ensures var q := Run(Initial(a, b), xs);
            Concat(q.events) == q.offered + InFlight(q) <==> TakesInTime(Initial(a, b), xs)
  {
    var p := Initial(a, b);
    RunIsSafe(p, xs);
    NothingLostIff(p, xs);
    if Run(p, xs).lost == 0 {
      RunIsFaithful(p, xs);
    }
  }
}
