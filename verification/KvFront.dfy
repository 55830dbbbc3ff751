/** The typed front end: gated setters and getters with compiled-in defaults. */
module KvFront {
  import opened Bytes
  import opened KvNv
  import opened KvModel
  import opened KvCache

  /** A default: word is the union itself, pointee the octets its pointer reading refers to. */
  datatype Default = Default(t: ValueType, length: nat, word: Word, pointee: Octets)

  datatype Kind = UInt32 | Int32 | UBase | Base

  predicate Scalar(t: ValueType) {
    t == TypeUInt32 || t == TypeInt32 || t == TypeUBase || t == TypeBase
  }

  predicate DefaultOk(d: Default) {
    && (Scalar(d.t) ==> d.length == POINTER_SIZE)
    && (!Scalar(d.t) ==> (d.t == TypeString || d.t == TypeBlob) && d.length == |d.pointee| > 0)
  }

  /** The value the configuration meant. */
  function MeantValue(d: Default): Octets {
    if Scalar(d.t) then d.word else d.pointee
  }

  /** What a read of the default copies out: at most pointer-sized copies come from the union itself. */
  function DefaultCopy(d: Default, size: nat): (c: Octets)
    requires DefaultOk(d)
    ensures |c| == Min(size, d.length)
  {
    var n := Min(size, d.length);
    if n > POINTER_SIZE then d.pointee[..n] else d.word[..n]
  }

  /** The meant octets come out for every content of the union (the value itself, or the address where the
      string or blob was placed) exactly when the default is a scalar or more than a pointer's worth is copied. */
  lemma DefaultCopyIff(d: Default, size: nat)
    requires DefaultOk(d) && size > 0
    ensures (forall w: Word :: DefaultCopy(d.(word := w), size) == MeantValue(d.(word := w))[..Min(size, d.length)])
            <==> Scalar(d.t) || Min(size, d.length) > POINTER_SIZE
  {
    var n := Min(size, d.length);
    if !Scalar(d.t) && n <= POINTER_SIZE {
      var other: byte := if d.pointee[0] == 0 then 1 else 0;
      var address: Word := [other, 0, 0, 0];
      assert DefaultCopy(d.(word := address), size)[0] == other;
      assert MeantValue(d.(word := address))[..n][0] == d.pointee[0];
    }
  }

  /** A default string of four octets comes out as the address where it was placed. */
  lemma ShortDefaultIsAddress(address: Word)
    ensures var d := Default(TypeString, 4, address, [97, 98, 99, 0]);
            DefaultOk(d) && DefaultCopy(d, 64) == address
  {
  }

  function TypeOf(k: Kind): ValueType {
    match k
    case UInt32 => TypeUInt32
    case Int32 => TypeInt32
    case UBase => TypeUBase
    case Base => TypeBase
  }

  /** The type each getter asks for. The getter for unsigned base values asks for the signed type. */
  function GetterGate(k: Kind): ValueType {
    match k
    case UInt32 => TypeUInt32
    case Int32 => TypeInt32
    case UBase => TypeBase
    case Base => TypeBase
  }

  /** Full length of the stored or default value. An empty value, as only a foreign file can hold, counts as unset. */
  function EntryLength(c: Cell, d: Default): nat {
    if c.Val? && c.v != [] then |c.v| else d.length
  }

  /** The octets a read with a buffer of the given size copies out. */
  function EntryCopy(c: Cell, d: Default, size: nat): (r: Octets)
    requires DefaultOk(d)
    ensures |r| == Min(size, EntryLength(c, d))
  {
    if c.Val? && c.v != [] then c.v[..Min(size, |c.v|)] else DefaultCopy(d, size)
  }

  /** What the size query answers: a slot that failed to load still reports the length it would have had. */
  function ReportedSize(c: Cell, d: Default): nat {
    if CellLength(c) > 0 then CellLength(c) else d.length
  }

  /** The load of this file fails after its length has been found. */
  predicate LoadFails(file: Option<Octets>, r: ReadFault) {
    HoldsValue(file) && r.statsLength && !ReadsBack(r)
  }

  /** After any writes and commits since a start, the reported size is the length that a read reports exactly when
      the key has been written, its load did not fail, or the default happens to be as long as the file's value. */
  lemma ReportedSizeIff(files: seq<Option<Octets>>, loads: seq<ReadFault>, ops: seq<Op>, key: nat, d: Default)
    requires |loads| == |files| && key < |files| && WellFormed(files[key])
    requires Start(files, loads).Up? && IsRun(Start(files, loads), ops) && RebootFree(ops)
    requires d.length > 0
    ensures var device := Run(Start(files, loads), ops);
            device.Up? &&
            (ReportedSize(device.cache[key].cell, d) == EntryLength(device.cache[key].cell, d)
             <==> Sets(ops, key) || !LoadFails(files[key], loads[key])
                  || d.length == |files[key].value| - HEADER_LEN)
  {
    RunIsMap(Start(files, loads), ops, key);
    LastSetKinds(ops, key, LoadedCell(files[key], loads[key]));
    LastSetNonempty(Start(files, loads), ops, key);
  }

  lemma {:induction false} LastSetNonempty(d: Device, ops: seq<Op>, key: nat)
    requires (d.Up? ==> |d.cache| == |d.files|) && IsRun(d, ops)
    ensures forall was :: Sets(ops, key) ==> LastSet(ops, key, was).Val? && |LastSet(ops, key, was).v| > 0
    decreases |ops|
  {
    if ops != [] {
      var init, last := ops[..|ops| - 1], ops[|ops| - 1];
      assert init + [last] == ops;
      RunConcat(d, init, [last]);
      LastSetNonempty(d, init, key);
      SetsSnoc(ops, key);
    }
  }

  /** What a scalar getter answers. */
  function ScalarRead(c: Cell, d: Default, k: Kind): (Octets, bool)
    requires DefaultOk(d)
  {
    if d.t != GetterGate(k) then (Zeros(POINTER_SIZE), false)
    else
      var copied := EntryCopy(c, d, POINTER_SIZE);
      (copied + Zeros(POINTER_SIZE - |copied|), EntryLength(c, d) == POINTER_SIZE)
  }

  /** Setting then getting returns the word, for every word, exactly when the kind is not unsigned base. */
  lemma ScalarRoundTripIff(e: Entry, d: Default, k: Kind)
    requires DefaultOk(d) && d.t == TypeOf(k)
    ensures (forall w: Word :: ScalarRead(Staged(e, TypeOf(k), w).cell, d, k) == (w, true)) <==> k != UBase
  {
    if k == UBase {
      assert ScalarRead(Staged(e, TypeOf(k), NULL_WORD).cell, d, k).1 == false;
    } else {
      forall w: Word ensures ScalarRead(Staged(e, TypeOf(k), w).cell, d, k) == (w, true) {
        assert w[..POINTER_SIZE] + Zeros(0) == w;
      }
    }
  }

  /** A key without a value reads as its default: the full length always, the octets where a default is copied right. */
  lemma UnsetReadsDefault(c: Cell, d: Default, size: nat)
    requires DefaultOk(d) && (c.Unset? || c.v == [])
    ensures EntryLength(c, d) == |MeantValue(d)|
    ensures Scalar(d.t) || Min(size, |MeantValue(d)|) > POINTER_SIZE
            ==> EntryCopy(c, d, size) == MeantValue(d)[..Min(size, |MeantValue(d)|)]
  {
  }

  /** A blob that was set comes back, cut to the buffer, with its full length. */
  lemma BlobRoundTrip(e: Entry, d: Default, v: Octets, size: nat)
    requires DefaultOk(d) && d.t == TypeBlob && v != []
    ensures var c := Staged(e, TypeBlob, v).cell;
            EntryLength(c, d) == |v| && EntryCopy(c, d, size) == v[..Min(size, |v|)]
  {
  }

  /** A scalar getter answers the default of an unset key, except for unsigned base values; for a key of another type it
      answers zero and failure. */
  lemma ScalarDefaultIff(c: Cell, d: Default, k: Kind)
    requires DefaultOk(d) && c.Unset?
    ensures d.t == TypeOf(k) ==> (ScalarRead(c, d, k) == (d.word, true) <==> k != UBase)
    ensures d.t != TypeOf(k) && !(k == UBase && d.t == TypeBase) ==> ScalarRead(c, d, k) == ([0, 0, 0, 0], false)
  {
    assert d.word[..4] + Zeros(0) == d.word && Zeros(4) == [0, 0, 0, 0];
  }

  /** The string getter's buffer starts with what was copied, up to the forced terminator. */
  lemma StringReadCopies(c: Cell, d: Default, size: nat, was: Octets)
    requires DefaultOk(d) && 0 < size <= |was|
    ensures var a, n := StringRead(c, d, size, was), Min(|EntryCopy(c, d, size)|, size - 1);
            && a.buf[..n] == EntryCopy(c, d, size)[..n] && a.buf[size - 1] == 0 && a.buf[size..] == was[size..]
            && a.len + 1 == EntryLength(c, d)
  {
  }

  lemma SetKeepsType(d: Device, key: nat, t: ValueType, v: Octets, k: nat, t': ValueType)
    requires d.Up? && |d.cache| == |d.files| && Enabled(d, Set(key, t, v))
    requires TypedAt(d, k, t') && (k == key ==> t' == t)
    ensures TypedAt(Step(d, Set(key, t, v)), k, t')
  {
  }

  /** The front end of one store. */
  class Store {
    const cache: Cache
    const defaults: seq<Default>

    ghost predicate Valid()
      reads this, cache, cache.slots, cache.nv
    {
      && cache.Valid() && |defaults| == cache.slots.Length
      && forall i :: 0 <= i < |defaults| ==> DefaultOk(defaults[i])
    }

    ghost function Cell(key: nat): Cell
      requires Valid() && key < |defaults|
      reads this, cache, cache.slots, cache.nv
    {
      cache.Dev().cache[key].cell
    }

    constructor (cache: Cache, defaults: seq<Default>)
      requires cache.Valid() && |defaults| == cache.slots.Length
      requires forall i :: 0 <= i < |defaults| ==> DefaultOk(defaults[i])
      ensures Valid() && this.cache == cache && this.defaults == defaults
    {
      this.cache, this.defaults := cache, defaults;
    }

    method ReadEntryOrDefault(key: nat, buf: array<byte>, size: nat) returns (len: nat)
      requires Valid() && key < |defaults| && size <= buf.Length
      modifies buf
      ensures var copied := EntryCopy(old(Cell(key)), defaults[key], size);
              buf[..] == copied + old(buf[|copied|..]) && len == EntryLength(old(Cell(key)), defaults[key])
    {
      hide Memory, AbsSlot, SlotOk, DefaultCopy, AbsSlots, MeantValue;
      var found, _ := cache.CopyValue(key, buf, size);
      len := if found.Some? then found.value.1 else 0;
      if len == 0 {
        var copied := DefaultCopy(defaults[key], size);
        forall i | 0 <= i < |copied| {
          buf[i] := copied[i];
        }
        len := defaults[key].length;
      }
    }

    /** The typed setters: nothing happens unless the key's declared type is the setter's own. */
    method SetValue(key: nat, t: ValueType, v: Octets) returns (ok: bool)
      requires Valid() && Settable(t) && |v| < VALUE_LIMIT
      modifies cache, cache.slots
      ensures Valid()
      ensures ok <==> key < |defaults| && v != [] && defaults[key].t == t
      ensures cache.Dev() == if ok then Step(old(cache.Dev()), Set(key, t, v)) else old(cache.Dev())
      ensures forall k :: 0 <= k < |defaults| && TypedAt(old(cache.Dev()), k, defaults[k].t)
                          ==> TypedAt(cache.Dev(), k, defaults[k].t)
    {
      hide Memory, AbsSlot, SlotOk, Step, TypedAt;
      ghost var d := cache.Dev();
      ok := false;
      if key < |defaults| && |v| > 0 && defaults[key].t == t {
        ok := cache.WriteEntry(key, t, v);
        forall k | 0 <= k < |defaults| && TypedAt(d, k, defaults[k].t)
          ensures TypedAt(Step(d, Set(key, t, v)), k, defaults[k].t)
        {
          SetKeepsType(d, key, t, v, k, defaults[k].t);
        }
      }
    }

    method SetScalar(kind: Kind, key: nat, w: Word) returns (ok: bool)
      requires Valid()
      modifies cache, cache.slots
      ensures Valid() && (ok <==> key < |defaults| && defaults[key].t == match kind
                                                                         case UInt32 => TypeUInt32
                                                                         case Int32 => TypeInt32
                                                                         case UBase => TypeUBase
                                                                         case Base => TypeBase)
      ensures cache.Dev() == if ok then Step(old(cache.Dev()), Set(key, TypeOf(kind), w)) else old(cache.Dev())
    {
      ok := SetValue(key, TypeOf(kind), w);
    }

    /** s is the string without its terminator. */
    method SetString(key: nat, s: Octets) returns (ok: bool)
      requires Valid() && |s| + 1 < VALUE_LIMIT && 0 !in s
      modifies cache, cache.slots
      ensures Valid() && (ok <==> key < |defaults| && defaults[key].t == TypeString)
      ensures cache.Dev() == if ok then Step(old(cache.Dev()), Set(key, TypeString, s + [0])) else old(cache.Dev())
    {
      ok := SetValue(key, TypeString, s + [0]);
    }

    method GetScalar(kind: Kind, key: nat) returns (w: Octets, ok: bool)
      requires Valid()
      ensures if key < |defaults| then (w, ok) == ScalarRead(Cell(key), defaults[key], kind)
              else w == Zeros(POINTER_SIZE) && !ok
    {
      var buf := new byte[POINTER_SIZE](_ => 0);
      var len := 0;
      assert buf[..] == Zeros(POINTER_SIZE);
      if key < |defaults| && defaults[key].t == GetterGate(kind) {
        len := ReadEntryOrDefault(key, buf, POINTER_SIZE);
        ghost var n := |EntryCopy(Cell(key), defaults[key], POINTER_SIZE)|;
        assert Zeros(POINTER_SIZE)[n..] == Zeros(POINTER_SIZE - n);
      }
      w, ok := buf[..], len == POINTER_SIZE;
    }

    /** Length of the cached value, or of the default when the slot reports none. */
    method GetSize(key: nat) returns (len: nat)
      requires Valid()
      ensures len == if key < |defaults| then ReportedSize(Cell(key), defaults[key]) else 0
    {
      len := 0;
      if key < |defaults| {
        MemorySlot(cache.slots[..], cache.heap, cache.leaked, key);
        len := cache.slots[key].length;
        if len == 0 {
          len := defaults[key].length;
        }
      }
    }

    method GetBlob(key: nat, buf: array<byte>, size: nat) returns (len: nat)
      requires Valid() && size <= buf.Length
      modifies buf
      ensures if key < |defaults| && defaults[key].t == TypeBlob
              then var copied := EntryCopy(old(Cell(key)), defaults[key], size);
                   buf[..] == copied + old(buf[|copied|..]) && len == EntryLength(old(Cell(key)), defaults[key])
              else buf[..] == old(buf[..]) && len == 0
    {
      len := 0;
      if key < |defaults| && defaults[key].t == TypeBlob {
        len := ReadEntryOrDefault(key, buf, size);
      }
    }

    method GetString(key: nat, buf: array<byte>, size: nat) returns (len: nat, stray: bool)
      requires Valid() && size <= buf.Length
      modifies buf
      ensures if key < |defaults| && defaults[key].t == TypeString
              then StringRead(old(Cell(key)), defaults[key], size, old(buf[..])) == Answer(buf[..], len, stray)
              else buf[..] == old(buf[..]) && len == 0 && !stray
    {
      len, stray := 0, false;
      if key < |defaults| && defaults[key].t == TypeString {
        len := ReadEntryOrDefault(key, buf, size);
        if size == 0 {
          stray := true;
        } else {
          buf[size - 1] := 0;
        }
      }
      if len > 0 {
        len := len - 1;
      }
    }
  }

  /** What the string getter leaves in the buffer and returns, and whether its terminator went astray. */
  datatype StringAnswer = Answer(buf: Octets, len: nat, stray: bool)

  /** At most size octets are copied, a terminator is forced into the last one, and the full length is returned. For an
      empty buffer the terminator goes astray: its index wraps, and the octet in front of the buffer is hit. */
  function StringRead(c: Cell, d: Default, size: nat, was: Octets): (a: StringAnswer)
    requires DefaultOk(d) && size <= |was|
  {
    var copied := EntryCopy(c, d, size);
    var buf := copied + was[|copied|..];
    Answer(if size == 0 then buf else buf[size - 1 := 0], EntryLength(c, d) - 1, size == 0)
  }

  /** A string that was set comes back terminated: whole when the buffer has room for it, otherwise cut to the buffer,
      and its full length is reported either way. Only an empty buffer makes the terminator go astray. */
  lemma StringRoundTrip(e: Entry, d: Default, s: Octets, size: nat, was: Octets)
    requires DefaultOk(d) && d.t == TypeString && 0 !in s && size <= |was|
    ensures var a := StringRead(Staged(e, TypeString, s + [0]).cell, d, size, was);
            && a.len == |s| && (a.stray <==> size == 0) && a.buf[size..] == was[size..]
            && (size > 0 ==> var n := Min(|s|, size - 1); a.buf[..n] == s[..n] && a.buf[n] == 0)
  {
  }

  /** First key with the given name, or the number of keys. */
  method StringToKey(names: seq<string>, name: string) returns (key: nat)
    ensures key <= |names| && (key < |names| ==> names[key] == name)
    ensures forall i :: 0 <= i < key ==> names[i] != name
  {
    key := 0;
    while key < |names| && names[key] != name
      invariant key <= |names|
      invariant forall i :: 0 <= i < key ==> names[i] != name
    {
      key := key + 1;
    }
  }
}
