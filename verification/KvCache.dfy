/** The write-back cache: tagged slots whose pointer field holds short values, and heap blocks for long ones. */
module KvCache {
  import opened Bytes
  import opened KvNv
  import opened KvModel

  const NULL_WORD: Word := [0, 0, 0, 0]

  /** The pointer-sized union of a slot. */
  datatype Union = Raw(bytes: Word) | Pointer(block: nat)

  datatype Slot = Slot(t: ValueType, length: nat, data: Union, pending: bool)

  const ZERO_SLOT: Slot := Slot(TypeNone, 0, Raw(NULL_WORD), false)

  predicate Long(s: Slot) {
    s.length > POINTER_SIZE
  }

  ghost function OwnBlock(s: Slot): set<nat> {
    if Long(s) && s.data.Pointer? then {s.data.block} else {}
  }

  ghost function Owned(slots: seq<Slot>): set<nat> {
    set i, a | 0 <= i < |slots| && a in OwnBlock(slots[i]) :: a
  }

  function UnionBytes(u: Union): Word {
    match u
    case Raw(b) => b
    case Pointer(a) => Word32(a)
  }

  /** A long slot points at a live block that can hold it. */
  ghost predicate SlotOk(s: Slot, heap: map<nat, Octets>) {
    && (Long(s) ==> s.data.Pointer? && s.data.block in heap && |heap[s.data.block]| >= s.length)
    && (s.t == TypeNone ==> !s.pending)
  }

  ghost predicate Distinct(slots: seq<Slot>) {
    forall i, j :: 0 <= i < j < |slots| ==> OwnBlock(slots[i]) !! OwnBlock(slots[j])
  }

  /** Ownership: long slots own distinct live blocks, and every other live block has been dropped. */
  ghost predicate Memory(slots: seq<Slot>, heap: map<nat, Octets>, leaked: set<nat>) {
    && (forall i :: 0 <= i < |slots| ==> SlotOk(slots[i], heap))
    && Distinct(slots)
    && Owned(slots) !! leaked
    && heap.Keys == Owned(slots) + leaked
  }

  /** The octets that a read of the slot gets. A short slot is read from the union, whatever stands there. */
  function Content(s: Slot, heap: map<nat, Octets>): (c: Octets)
    requires Long(s) ==> s.data.Pointer? && s.data.block in heap && |heap[s.data.block]| >= s.length
    ensures |c| == s.length
  {
    if Long(s) then heap[s.data.block][..s.length] else UnionBytes(s.data)[..s.length]
  }

  ghost function AbsSlot(s: Slot, heap: map<nat, Octets>): Entry
    requires SlotOk(s, heap)
  {
    Entry(if s.t == TypeNone then Unset(s.length) else Val(s.t, Content(s, heap)), s.pending)
  }

  ghost function AbsSlots(slots: seq<Slot>, heap: map<nat, Octets>): (a: seq<Entry>)
    requires forall i :: 0 <= i < |slots| ==> SlotOk(slots[i], heap)
    ensures |a| == |slots| && forall i :: 0 <= i < |a| ==> a[i] == AbsSlot(slots[i], heap)
  {
    seq(|slots|, i requires 0 <= i < |slots| => AbsSlot(slots[i], heap))
  }

  lemma OwnedReplace(slots: seq<Slot>, k: nat, s: Slot)
    requires Distinct(slots) && k < |slots| && OwnBlock(s) !! Owned(slots) - OwnBlock(slots[k])
    ensures Distinct(slots[k := s])
    ensures Owned(slots[k := s]) == Owned(slots) - OwnBlock(slots[k]) + OwnBlock(s)
    ensures OwnBlock(slots[k]) <= Owned(slots)
    ensures forall i :: 0 <= i < |slots| && i != k ==> OwnBlock(slots[i]) <= Owned(slots) - OwnBlock(slots[k])
  {
    hide OwnBlock;
    var slots' := slots[k := s];
    forall i | 0 <= i < |slots| && i != k ensures OwnBlock(slots[i]) <= Owned(slots) - OwnBlock(slots[k]) {
    }
    forall a | a in Owned(slots) - OwnBlock(slots[k]) ensures a in Owned(slots') {
      var i :| 0 <= i < |slots| && a in OwnBlock(slots[i]);
      assert slots'[i] == slots[i];
    }
    forall a | a in OwnBlock(s) ensures a in Owned(slots') {
      assert slots'[k] == s;
    }
  }

  /** Replacing one slot: its old block is freed, kept or dropped, its new block is its own, and a new block may be
      lost at once. */
  lemma ReplaceSlot(slots: seq<Slot>, heap: map<nat, Octets>, leaked: set<nat>,
                    k: nat, s: Slot, heap': map<nat, Octets>, drop: set<nat>)
    requires Memory(slots, heap, leaked) && k < |slots|
    requires drop !! heap.Keys - OwnBlock(slots[k]) && drop !! OwnBlock(s)
    requires OwnBlock(s) !! heap.Keys - OwnBlock(slots[k])
    requires heap'.Keys == heap.Keys - OwnBlock(slots[k]) + drop + OwnBlock(s)
    requires forall a :: a in heap && a !in OwnBlock(slots[k]) ==> heap'[a] == heap[a]
    requires SlotOk(s, heap')
    ensures Memory(slots[k := s], heap', leaked + drop)
    ensures AbsSlots(slots[k := s], heap') == AbsSlots(slots, heap)[k := AbsSlot(s, heap')]
  {
    hide Owned, Distinct;
    OwnedReplace(slots, k, s);
    forall i | 0 <= i < |slots| && i != k
      ensures SlotOk(slots[i], heap') && AbsSlot(slots[i], heap') == AbsSlot(slots[i], heap)
    {
      SameSlot(slots[i], heap, heap');
    }
  }

  lemma SameSlot(s: Slot, heap: map<nat, Octets>, heap': map<nat, Octets>)
    requires SlotOk(s, heap)
    requires forall a :: a in OwnBlock(s) && a in heap ==> a in heap' && heap'[a] == heap[a]
    ensures SlotOk(s, heap') && AbsSlot(s, heap') == AbsSlot(s, heap)
  {
    if Long(s) {
      assert s.data.block in OwnBlock(s);
    }
  }

  /** Number of entries that need a heap block. */
  function LongCount(cache: seq<Entry>): nat {
    if cache == [] then 0
    else LongCount(cache[..|cache| - 1]) + if CellLength(cache[|cache| - 1].cell) > POINTER_SIZE then 1 else 0
  }

  /** Exact heap conservation, first half: the owned blocks are as many as the long entries. */
  lemma {:induction false} OwnedCount(slots: seq<Slot>, heap: map<nat, Octets>)
    requires Distinct(slots) && forall i :: 0 <= i < |slots| ==> SlotOk(slots[i], heap)
    ensures |Owned(slots)| == LongCount(AbsSlots(slots, heap))
  {
    hide SlotOk, AbsSlot, Distinct, Owned, OwnBlock;
    if slots == [] {
      NothingOwned();
    } else {
      var n := |slots| - 1;
      assert slots == slots[..n] + [slots[n]];
      OwnedSnoc(slots[..n], slots[n]);
      OwnedCount(slots[..n], heap);
      assert AbsSlots(slots, heap)[..n] == AbsSlots(slots[..n], heap);
      LongOwnsOne(slots[n], heap);
    }
  }

  lemma NothingOwned()
    ensures Owned([]) == {}
  {
  }

  lemma LongOwnsOne(s: Slot, heap: map<nat, Octets>)
    requires SlotOk(s, heap)
    ensures |OwnBlock(s)| == if CellLength(AbsSlot(s, heap).cell) > POINTER_SIZE then 1 else 0
  {
  }

  lemma OwnedSnoc(init: seq<Slot>, s: Slot)
    requires Distinct(init + [s])
    ensures Distinct(init) && |Owned(init + [s])| == |Owned(init)| + |OwnBlock(s)|
  {
    hide OwnBlock;
    var slots := init + [s];
    assert forall i :: 0 <= i < |init| ==> slots[i] == init[i];
    assert slots[|init|] == s;
    assert Owned(slots) == Owned(init) + OwnBlock(s);
    assert Owned(init) !! OwnBlock(s);
  }

  lemma FreshBlock(keys: set<nat>)
    ensures exists a: nat :: a !in keys
  {
    if keys != {} {
      var m := MaxOf(keys);
      assert m + 1 !in keys;
    } else {
      assert 0 !in keys;
    }
  }

  lemma {:induction false} MaxOf(keys: set<nat>) returns (m: nat)
    requires keys != {}
    ensures m in keys && forall a :: a in keys ==> a <= m
  {
    m :| m in keys;
    if keys != {m} {
      var m' := MaxOf(keys - {m});
      assert forall a :: a in keys ==> a == m || a in keys - {m};
      if m < m' {
        m := m';
      }
    }
  }

  function Overwrite(dst: Octets, v: Octets): (r: Octets)
    requires |v| <= |dst|
    ensures |r| == |dst| && r[..|v|] == v
  {
    v + dst[|v|..]
  }

  class Cache {
    const nv: NvStore
    const slots: array<Slot>
    var heap: map<nat, Octets>
    ghost var leaked: set<nat>

    ghost predicate Valid()
      reads this, slots, nv
    {
      slots.Length == |nv.files| && Memory(slots[..], heap, leaked)
    }

    ghost function Dev(): Device
      requires Valid()
      reads this, slots, nv
    {
      Up(AbsSlots(slots[..], heap), nv.files, |leaked|)
    }

    /** Live cache blocks are exactly the long entries plus the blocks dropped so far. */
    lemma HeapConservation()
      requires Valid()
      ensures |heap| == LongCount(Dev().cache) + Dev().dropped
    {
      OwnedCount(slots[..], heap);
      assert |heap| == |heap.Keys|;
    }

    /** Zero-initialised statics, as after a reset. */
    constructor (nv: NvStore)
      ensures Valid() && fresh(slots) && this.nv == nv && nv.files == old(nv.files)
      ensures heap == map[] && leaked == {}
      ensures forall i :: 0 <= i < slots.Length ==> slots[i] == ZERO_SLOT
    {
      this.nv := nv;
      slots := new Slot[|nv.files|](_ => ZERO_SLOT);
      heap := map[];
      leaked := {};
      new;
      assert Owned(slots[..]) == {};
    }

    /** Any address that is not live; the octets of a new block are arbitrary. */
    method Malloc(n: nat) returns (a: nat)
      modifies this`heap
      ensures a !in old(heap) && a in heap && |heap[a]| == n && heap == old(heap)[a := heap[a]]
    {
      FreshBlock(heap.Keys);
      a :| a !in heap.Keys;
      assert |Zeros(n)| == n;
      var contents: Octets :| |contents| == n;
      heap := heap[a := contents];
    }

    method Free(a: nat)
      requires a in heap
      modifies this`heap
      ensures heap == old(heap) - {a}
    {
      heap := heap - {a};
    }

    method AllocateDataBuffer(key: nat, n: nat)
      requires key < slots.Length
      modifies this`heap, slots
      ensures slots[..] == old(slots[..])[key := old(slots[key]).(data := slots[key].data, length := n)]
      ensures if n > POINTER_SIZE
              then slots[key].data.Pointer? && var a := slots[key].data.block;
                   a !in old(heap) && a in heap && |heap[a]| == n && heap == old(heap)[a := heap[a]]
              else slots[key].data == Raw(NULL_WORD) && heap == old(heap)
      ensures old(slots[key].t) == TypeNone && SlotOk(old(slots[key]), old(heap)) ==>
                BlockChange(old(slots[key]), old(heap), slots[key], heap)
    {
      if n > POINTER_SIZE {
        var a := Malloc(n);
        slots[key] := slots[key].(data := Pointer(a), length := n);
      } else {
        slots[key] := slots[key].(data := Raw(NULL_WORD), length := n);
      }
    }

    method ClearDataBuffer(key: nat)
      requires key < slots.Length
      requires Long(slots[key]) ==> slots[key].data.Pointer? && slots[key].data.block in heap
      modifies this`heap, slots
      ensures slots[..] == old(slots[..])[key := old(slots[key]).(data := Raw(NULL_WORD), length := 0)]
      ensures heap == old(heap) - OwnBlock(old(slots[key]))
    {
      if Long(slots[key]) {
        Free(slots[key].data.block);
        slots[key] := slots[key].(data := Raw(NULL_WORD), length := 0);
      } else {
        slots[key] := slots[key].(data := Raw(NULL_WORD), length := 0);
      }
    }

    method ReallocDataBuffer(key: nat, n: nat)
      requires key < slots.Length
      requires Long(slots[key]) ==> slots[key].data.Pointer? && slots[key].data.block in heap
      modifies this`heap, slots
      ensures slots[..] == old(slots[..])[key := old(slots[key]).(data := slots[key].data, length := n)]
      ensures n <= old(slots[key].length) ==> slots[key].data == old(slots[key].data) && heap == old(heap)
      ensures n > old(slots[key].length) ==>
                var rest := old(heap) - OwnBlock(old(slots[key]));
                if n > POINTER_SIZE
                then slots[key].data.Pointer? && var a := slots[key].data.block;
                     a !in rest && a in heap && |heap[a]| == n && heap == rest[a := heap[a]]
                else slots[key].data == Raw(NULL_WORD) && heap == rest
      ensures old(slots[key].t) != TypeNone && SlotOk(old(slots[key]), old(heap)) ==>
                BlockChange(old(slots[key]), old(heap), slots[key], heap)
    {
      if n > slots[key].length {
        ClearDataBuffer(key);
        AllocateDataBuffer(key, n);
      } else {
        slots[key] := slots[key].(length := n);
      }
    }

    /** memcpy to the slot's data. */
    method StoreBytes(key: nat, v: Octets)
      requires key < slots.Length && |v| <= slots[key].length
      requires Long(slots[key]) ==> slots[key].data.Pointer? && slots[key].data.block in heap
                                    && |heap[slots[key].data.block]| >= |v|
      modifies this`heap, slots
      ensures if Long(old(slots[key]))
              then slots[..] == old(slots[..])
                   && var a := slots[key].data.block; heap == old(heap)[a := Overwrite(old(heap)[a], v)]
              else heap == old(heap)
                   && slots[..] == old(slots[..])[key := old(slots[key]).(
                                     data := Raw(Overwrite(UnionBytes(old(slots[key].data)), v)))]
    {
      if Long(slots[key]) {
        var a := slots[key].data.block;
        heap := heap[a := Overwrite(heap[a], v)];
      } else {
        slots[key] := slots[key].(data := Raw(Overwrite(UnionBytes(slots[key].data), v)));
      }
    }

    /** The branches of a cache write: the slot gets room for the value, its type and its pending flag. */
    method PrepareSlot(key: nat, t: ValueType, v: Octets)
      requires key < slots.Length && SlotOk(slots[key], heap) && Settable(t) && v != []
      modifies this`heap, slots
      ensures slots[..] == old(slots[..])[key := slots[key]]
      ensures slots[key].t == t && slots[key].length == |v|
      ensures slots[key].pending == Staged(old(AbsSlot(slots[key], heap)), t, v).pending
      ensures slots[key].pending || (slots[key] == old(slots[key]) && heap == old(heap))
      ensures Long(slots[key]) ==> slots[key].data.Pointer? && slots[key].data.block in heap
                                   && |heap[slots[key].data.block]| >= |v|
      ensures BlockChange(old(slots[key]), old(heap), slots[key], heap)
    {
      ghost var s0, heap0 := slots[key], heap;
      NoBlockChange(s0, heap0);
      hide BlockChange;
      if slots[key].t == TypeNone {
        AllocateDataBuffer(key, |v|);
        Retagged(s0, heap0, slots[key], heap, t);
        slots[key] := slots[key].(t := t, pending := true);
      } else if slots[key].length != |v| {
        ReallocDataBuffer(key, |v|);
        Retagged(s0, heap0, slots[key], heap, t);
        slots[key] := slots[key].(t := t, pending := true);
      } else if slots[key].t != t {
        Retagged(s0, heap0, slots[key], heap, t);
        slots[key] := slots[key].(t := t, pending := true);
      } else if Content(slots[key], heap) != v {
        Retagged(s0, heap0, slots[key], heap, t);
        slots[key] := slots[key].(pending := true);
      }
    }

    /** Stages a value. Whichever branch runs, exactly one key changes, and memory stays accounted for. */
    method WriteEntry(key: nat, t: ValueType, v: Octets) returns (ok: bool)
      requires Valid() && key < slots.Length && Settable(t) && 0 < |v| < VALUE_LIMIT
      modifies this, slots
      ensures Valid() && ok && Dev() == Step(old(Dev()), Set(key, t, v))
    {
      hide Memory, BlockChange, SlotOk, AbsSlot, DroppedBlock, Drops, Staged, Step;
      ghost var slots0, heap0, s0, d := slots[..], heap, slots[key], Dev();
      MemorySlot(slots0, heap0, leaked, key);
      StageValue(key, t, v);
      Accounted(slots0, heap0, leaked, key, slots[key], heap);
      leaked := leaked + DroppedBlock(s0, |v|);
      SetStep(d, key, t, v, AbsSlot(slots[key], heap), |leaked|);
      return true;
    }

    method StageValue(key: nat, t: ValueType, v: Octets)
      requires key < slots.Length && SlotOk(slots[key], heap) && Settable(t) && v != []
      modifies this`heap, slots
      ensures slots[..] == old(slots[..])[key := slots[key]] && slots[key].length == |v|
      ensures SlotOk(slots[key], heap) && AbsSlot(slots[key], heap) == Staged(old(AbsSlot(slots[key], heap)), t, v)
      ensures BlockChange(old(slots[key]), old(heap), slots[key], heap)
    {
      PrepareSlot(key, t, v);
      if slots[key].pending {
        StoreBytes(key, v);
      }
    }

    /** Reads one file, whatever its octets, into a slot that has never been used. */
    method InitSlot(key: nat, r: ReadFault) returns (halted: bool, ghost address: Word, ghost lost: set<nat>)
      requires key < slots.Length == |nv.files| && slots[key] == ZERO_SLOT && FitsSize(nv.files[key])
      modifies this`heap, slots
      ensures halted <==> FileHalts(nv.files[key], r)
      ensures !halted ==>
                && slots[..] == old(slots[..])[key := slots[key]] && SlotOk(slots[key], heap)
                && AbsSlot(slots[key], heap) == Entry(LoadedCell(nv.files[key], r.(address := address)), false)
                && LoadChange(old(heap), slots[key], heap, lost)
                && |lost| == if ShrinksOnLoad(nv.files[key], r) then 1 else 0
    {
      LengthCases(nv.files[key], r);
      ZeroSlotLoads(heap);
      hide LengthAnswer, LoadChange, AbsSlot, SlotOk, LoadedCell, ShrinksOnLoad, ReadHalts, HoldsValue, Stub;
      halted, address, lost := false, NULL_WORD, {};
      slots[key] := slots[key].(pending := false, t := TypeNone);
      assert slots[key] == ZERO_SLOT;
      var nvLength := nv.GetLength(key, r);
      if nvLength > 0 {
        if nvLength >= VALUE_LIMIT {
          // The allocator adds its own header, which overflows; the assertion on the write pointer fails.
          return true, address, lost;
        }
        halted, address, lost := ReadIntoSlot(key, nvLength, r);
      } else {
        NothingToLoad(nv.files[key], r, address);
      }
    }

    /** Makes room for as many octets as the file is long, and reads the value there. */
    method ReadIntoSlot(key: nat, nvLength: nat, r: ReadFault)
      returns (halted: bool, ghost address: Word, ghost lost: set<nat>)
      requires key < slots.Length == |nv.files| && slots[key] == ZERO_SLOT
      requires HoldsValue(nv.files[key]) && r.statsLength && nvLength == |nv.files[key].value| - HEADER_LEN
      modifies this`heap, slots
      ensures halted <==> ReadHalts(nv.files[key], r)
      ensures !halted ==>
                && slots[..] == old(slots[..])[key := slots[key]] && SlotOk(slots[key], heap)
                && AbsSlot(slots[key], heap) == Entry(LoadedCell(nv.files[key], r.(address := address)), false)
                && LoadChange(old(heap), slots[key], heap, lost)
                && |lost| == if ShrinksOnLoad(nv.files[key], r) then 1 else 0
    {
      hide LoadChange, AbsSlot, SlotOk, ReadOutcome, LoadedCell, ShrinksOnLoad, Content, ReadHalts, BlockChange;
      ghost var file, heap0 := nv.files[key], heap;
      AllocateDataBuffer(key, nvLength);
      address, lost := UnionBytes(slots[key].data), {};
      AllocatedForLoad(heap0, slots[key], heap);
      var ok, t, len, data;
      ok, halted, t, len, data := nv.ReadValue(key, slots[key].t, slots[key].length, r);
      if halted { return; }
      if ok {
        OutcomeFits(file, r);
        lost := FillSlot(key, t, data, heap0);
      }
      LoadedSlot(file, r, address, slots[key], heap, lost);
    }

    /** Takes over octets, type and length of a value of which the slot has room for at least as many. */
    method FillSlot(key: nat, t: ValueType, v: Octets, ghost heap0: map<nat, Octets>) returns (ghost lost: set<nat>)
      requires key < slots.Length && slots[key].t == TypeNone && !slots[key].pending
      requires SlotOk(slots[key], heap) && LoadChange(heap0, slots[key], heap, {})
      requires |v| <= slots[key].length && (!Long(slots[key]) ==> slots[key].data == Raw(NULL_WORD))
      modifies this`heap, slots
      ensures slots[..] == old(slots[..])[key := slots[key]] && SlotOk(slots[key], heap)
      ensures slots[key].t == t && slots[key].length == |v| && !slots[key].pending
      ensures Content(slots[key], heap)
              == if |v| <= POINTER_SIZE < old(slots[key].length) then UnionBytes(old(slots[key].data))[..|v|] else v
      ensures LoadChange(heap0, slots[key], heap, lost)
      ensures |lost| == if |v| <= POINTER_SIZE < old(slots[key].length) then 1 else 0
    {
      ghost var s0, heap1 := slots[key], heap;
      hide LoadChange, SlotOk, Content;
      SlotHasRoom(s0, heap1);
      StoreBytes(key, v);
      slots[key] := slots[key].(t := t, length := |v|);
      lost := Filled(heap0, s0, heap1, slots[key], heap, v);
    }

    /** The same, with the memory of all slots accounted for. */
    method InitEntry(key: nat, r: ReadFault) returns (halted: bool, ghost seen: ReadFault)
      requires key < slots.Length == |nv.files| && slots[key] == ZERO_SLOT && FitsSize(nv.files[key])
      requires Memory(slots[..], heap, leaked)
      modifies this, slots
      ensures halted <==> FileHalts(nv.files[key], r)
      ensures seen == r.(address := seen.address)
      ensures !halted ==>
                && slots[..] == old(slots[..])[key := slots[key]] && Memory(slots[..], heap, leaked)
                && AbsSlots(slots[..], heap)
                   == old(AbsSlots(slots[..], heap))[key := Entry(LoadedCell(nv.files[key], seen), false)]
                && |leaked| == old(|leaked|) + if ShrinksOnLoad(nv.files[key], r) then 1 else 0
    {
      hide Owned, Distinct, SlotOk, LoadedCell, FileHalts, AbsSlot, LoadChange, ShrinksOnLoad;
      ghost var slots0, heap0 := slots[..], heap;
      ghost var address, lost;
      halted, address, lost := InitSlot(key, r);
      seen := r.(address := address);
      if !halted {
        LoadAccounted(slots0, heap0, leaked, key, slots[key], heap, lost);
        leaked := leaked + lost;
      }
    }

    /** Reads every file into its slot, whatever is on flash. Stops at the first file it cannot cope with. seen are the
        read outcomes together with the addresses that the allocator gave. */
    method CacheInit(loads: seq<ReadFault>) returns (halted: bool, ghost seen: seq<ReadFault>)
      requires Valid() && |loads| == |nv.files| && leaked == {}
      requires forall i :: 0 <= i < slots.Length ==> slots[i] == ZERO_SLOT
      requires forall i :: 0 <= i < |nv.files| ==> FitsSize(nv.files[i])
      modifies this, slots
      ensures halted <==> StartHalts(nv.files, loads)
      ensures !halted ==> Valid() && |seen| == |loads| && Dev() == Start(nv.files, seen)
      ensures !halted ==> forall i :: 0 <= i < |loads| ==> seen[i] == loads[i].(address := seen[i].address)
    {
      hide Owned, Distinct, SlotOk, FitsSize, LoadedCell, FileHalts, AbsSlot;
      hide Start, StartHalts, LoadedUpTo, LostAtStart;
      var i := 0;
      seen := [];
      NothingLoaded(AbsSlots(slots[..], heap), nv.files, loads);
      while i < slots.Length
        invariant 0 <= i <= slots.Length == |nv.files| && |seen| == i
        invariant Memory(slots[..], heap, leaked)
        invariant forall j :: i <= j < slots.Length ==> slots[j] == ZERO_SLOT
        invariant LoadedUpTo(AbsSlots(slots[..], heap), nv.files, loads, seen)
        invariant |leaked| == LostAtStart(nv.files, loads, i)
      {
        ghost var cache, one := AbsSlots(slots[..], heap), loads[i];
        halted, one := InitEntry(i, loads[i]);
        if halted {
          HaltsAt(nv.files, loads, i);
          return;
        }
        LoadedOneMore(cache, nv.files, loads, seen, one);
        seen := seen + [one];
        i := i + 1;
      }
      halted := false;
      StartsWith(nv.files, loads, seen, AbsSlots(slots[..], heap));
    }

    /** Copies at most size octets of the value out; nothing when the key is not set. */
    method CopyValue(key: nat, buf: array<byte>, size: nat) returns (found: Option<(ValueType, nat)>, ok: bool)
      requires Valid() && key < slots.Length && size <= buf.Length
      modifies buf
      ensures match old(Dev()).cache[key].cell
              case Unset(_) => found == None && !ok && buf[..] == old(buf[..])
              case Val(t, v) =>
                var n := if size < |v| then size else |v|;
                found == Some((t, |v|)) && (ok <==> n > 0) && buf[..] == v[..n] + old(buf[n..])
    {
      hide Memory, Owned, Distinct;
      var s := slots[key];
      MemorySlot(slots[..], heap, leaked, key);
      assert Dev().cache[key] == AbsSlot(s, heap);
      found := None;
      var n := 0;
      if s.t != TypeNone {
        var content := Content(s, heap);
        n := s.length;
        if size < n {
          n := size;
        }
        forall i | 0 <= i < n {
          buf[i] := content[i];
        }
        found := Some((s.t, s.length));
      }
      ok := n > 0;
    }

    /** Writes every pending entry; true exactly when all those writes succeeded. */
    method CommitChanges(faults: seq<WriteFault>) returns (ok: bool)
      requires Valid() && |faults| == |nv.files|
      modifies nv
      ensures Valid() && Dev() == Step(old(Dev()), Commit(faults))
      ensures ok <==> CommitOk(old(Dev()).cache, faults)
      ensures ok <==> forall i :: 0 <= i < slots.Length && old(slots[i].pending) ==>
                        faults[i].opens && faults[i].headerRet == HEADER_LEN
                        && faults[i].dataRet == old(slots[i].length)
    {
      hide Owned, Distinct, FileAfter;
      ghost var cache, files0 := Dev().cache, nv.files;
      PendingSlots(slots[..], heap);
      ok := true;
      var i := 0;
      while i < slots.Length
        invariant 0 <= i <= slots.Length == |nv.files| == |files0|
        invariant forall j :: 0 <= j < i ==> nv.files[j] == CommittedFile(cache[j], files0[j], faults[j])
        invariant forall j :: i <= j < |files0| ==> nv.files[j] == files0[j]
        invariant ok <==> forall j :: 0 <= j < i && slots[j].pending ==>
                            faults[j].opens && faults[j].headerRet == HEADER_LEN && faults[j].dataRet == slots[j].length
      {
        var s := slots[i];
        assert SlotOk(s, heap) && cache[i] == AbsSlot(s, heap);
        if s.pending {
          var written := nv.WriteValue(i, s.t, Content(s, heap), faults[i]);
          ok := ok && written;
        }
        i := i + 1;
      }
      assert nv.files == CommittedFiles(cache, files0, faults);
    }
  }

  lemma PendingSlots(slots: seq<Slot>, heap: map<nat, Octets>)
    requires forall i :: 0 <= i < |slots| ==> SlotOk(slots[i], heap)
    ensures forall i :: 0 <= i < |slots| ==>
              (Pending(AbsSlots(slots, heap)[i]) <==> slots[i].pending)
              && (slots[i].pending ==> |AbsSlots(slots, heap)[i].cell.v| == slots[i].length)
  {
  }

  /** A file's size is a 32-bit number. */
  predicate FitsSize(file: Option<Octets>) {
    file.Some? ==> |file.value| < SIZE_LIMIT
  }

  lemma ZeroSlotLoads(heap: map<nat, Octets>)
    ensures SlotOk(ZERO_SLOT, heap) && AbsSlot(ZERO_SLOT, heap) == Entry(Unset(0), false)
    ensures LoadChange(heap, ZERO_SLOT, heap, {})
  {
  }

  lemma AllocatedForLoad(heap0: map<nat, Octets>, s: Slot, heap: map<nat, Octets>)
    requires s.t == TypeNone && !s.pending
    requires if s.length > POINTER_SIZE
             then s.data.Pointer? && var a := s.data.block;
                  a !in heap0 && a in heap && |heap[a]| == s.length && heap == heap0[a := heap[a]]
             else s.data == Raw(NULL_WORD) && heap == heap0
    ensures SlotOk(s, heap) && LoadChange(heap0, s, heap, {})
  {
  }

  lemma SlotHasRoom(s: Slot, heap: map<nat, Octets>)
    requires SlotOk(s, heap)
    ensures Long(s) ==> s.data.Pointer? && s.data.block in heap && |heap[s.data.block]| >= s.length
  {
  }

  /** Storing v in a slot that has the room and setting its length: a block that was only needed for a longer value is
      lost, and then the slot reads as that block's address. */
  lemma Filled(heap0: map<nat, Octets>, s0: Slot, heap1: map<nat, Octets>, s: Slot, heap: map<nat, Octets>, v: Octets)
    returns (lost: set<nat>)
    requires SlotOk(s0, heap1) && LoadChange(heap0, s0, heap1, {}) && !s0.pending && |v| <= s0.length
    requires !s.pending && s.length == |v|
    requires if Long(s0)
             then s.data == s0.data && heap == heap1[s0.data.block := Overwrite(heap1[s0.data.block], v)]
             else s0.data == Raw(NULL_WORD) && s.data == Raw(Overwrite(NULL_WORD, v)) && heap == heap1
    ensures SlotOk(s, heap) && LoadChange(heap0, s, heap, lost)
    ensures Content(s, heap) == if |v| <= POINTER_SIZE < s0.length then UnionBytes(s0.data)[..|v|] else v
    ensures |lost| == if |v| <= POINTER_SIZE < s0.length then 1 else 0
  {
    if !Long(s0) {
      lost := {};
      FilledInline(heap1, s0, s, v);
    } else if Long(s) {
      lost := {};
      FilledBlock(heap0, s0, heap1, s, heap, v);
    } else {
      lost := OwnBlock(s0);
      FilledLost(heap0, s0, heap1, s, heap, v);
    }
  }

  lemma FilledInline(heap: map<nat, Octets>, s0: Slot, s: Slot, v: Octets)
    requires !Long(s0) && |v| <= s0.length && s.length == |v| && s.data == Raw(Overwrite(NULL_WORD, v)) && !s.pending
    ensures SlotOk(s, heap) && Content(s, heap) == v && OwnBlock(s) == OwnBlock(s0) == {}
  {
  }

  lemma FilledBlock(heap0: map<nat, Octets>, s0: Slot, heap1: map<nat, Octets>, s: Slot, heap: map<nat, Octets>,
                    v: Octets)
    requires SlotOk(s0, heap1) && LoadChange(heap0, s0, heap1, {}) && Long(s0) && |v| <= s0.length
    requires Long(s) && s.length == |v| && s.data == s0.data && !s.pending
    requires heap == heap1[s0.data.block := Overwrite(heap1[s0.data.block], v)]
    ensures SlotOk(s, heap) && LoadChange(heap0, s, heap, {}) && Content(s, heap) == v
  {
    assert OwnBlock(s) == OwnBlock(s0);
  }

  lemma FilledLost(heap0: map<nat, Octets>, s0: Slot, heap1: map<nat, Octets>, s: Slot, heap: map<nat, Octets>,
                   v: Octets)
    requires SlotOk(s0, heap1) && LoadChange(heap0, s0, heap1, {}) && Long(s0)
    requires !Long(s) && s.length == |v| && s.data == s0.data && !s.pending && |v| <= s0.length
    requires heap == heap1[s0.data.block := Overwrite(heap1[s0.data.block], v)]
    ensures SlotOk(s, heap) && Content(s, heap) == UnionBytes(s0.data)[..|v|]
    ensures LoadChange(heap0, s, heap, OwnBlock(s0)) && |OwnBlock(s0)| == 1
  {
  }

  /** A slot that was filled by the outcome of the read is what start-up makes of the file. */
  lemma LoadedSlot(file: Option<Octets>, r: ReadFault, address: Word, s: Slot, heap: map<nat, Octets>, lost: set<nat>)
    requires HoldsValue(file) && r.statsLength && SlotOk(s, heap) && !s.pending
    requires match ReadOutcome(file, r)
             case None => s.t == TypeNone && s.length == |file.value| - HEADER_LEN && |lost| == 0
             case Some(st) =>
               var shrinks := |st.v| <= POINTER_SIZE < |file.value| - HEADER_LEN;
               && s.t == st.t && s.length == |st.v| && |lost| == (if shrinks then 1 else 0)
               && Content(s, heap) == if shrinks then address[..|st.v|] else st.v
    ensures AbsSlot(s, heap) == Entry(LoadedCell(file, r.(address := address)), false)
    ensures |lost| == if ShrinksOnLoad(file, r) then 1 else 0
  {
    assert ReadOutcome(file, r.(address := address)) == ReadOutcome(file, r);
  }

  lemma OutcomeFits(file: Option<Octets>, r: ReadFault)
    requires HoldsValue(file) && ReadOutcome(file, r).Some?
    ensures |ReadOutcome(file, r).value.v| <= |file.value| - HEADER_LEN
  {
  }

  lemma NothingToLoad(file: Option<Octets>, r: ReadFault, address: Word)
    requires !HoldsValue(file) || !r.statsLength
    ensures LoadedCell(file, r.(address := address)) == Unset(0) && !ShrinksOnLoad(file, r)
  {
  }

  lemma LengthCases(file: Option<Octets>, r: ReadFault)
    requires FitsSize(file)
    ensures var n := LengthAnswer(file, r);
            && (n >= VALUE_LIMIT <==> r.statsLength && Stub(file))
            && (0 < n < VALUE_LIMIT <==> r.statsLength && HoldsValue(file))
            && (0 < n < VALUE_LIMIT ==> n == |file.value| - HEADER_LEN)
  {
  }

  /** What loading does to the heap: the slot gets a new block or none, and at most one new block is lost. */
  ghost predicate LoadChange(heap0: map<nat, Octets>, s: Slot, heap: map<nat, Octets>, lost: set<nat>) {
    var own := OwnBlock(s);
    && lost !! own && (own + lost) !! heap0.Keys
    && heap.Keys == heap0.Keys + own + lost
    && forall a :: a in heap0 ==> heap[a] == heap0[a]
  }

  lemma LoadAccounted(slots: seq<Slot>, heap: map<nat, Octets>, leaked: set<nat>, k: nat, s: Slot,
                      heap': map<nat, Octets>, lost: set<nat>)
    requires Memory(slots, heap, leaked) && k < |slots| && slots[k] == ZERO_SLOT
    requires SlotOk(s, heap') && LoadChange(heap, s, heap', lost)
    ensures Memory(slots[k := s], heap', leaked + lost)
    ensures AbsSlots(slots[k := s], heap') == AbsSlots(slots, heap)[k := AbsSlot(s, heap')]
    ensures |leaked + lost| == |leaked| + |lost|
  {
    hide Owned, Distinct, SlotOk, Memory, OwnBlock, LoadChange;
    LeakedIsLive(slots, heap, leaked);
    LoadReplaces(heap, s, heap', lost);
    ReplaceSlot(slots, heap, leaked, k, s, heap', lost);
    assert |leaked + lost| == |leaked| + |lost|;
  }

  lemma LeakedIsLive(slots: seq<Slot>, heap: map<nat, Octets>, leaked: set<nat>)
    requires Memory(slots, heap, leaked)
    ensures leaked <= heap.Keys
  {
  }

  lemma LoadReplaces(heap: map<nat, Octets>, s: Slot, heap': map<nat, Octets>, lost: set<nat>)
    requires LoadChange(heap, s, heap', lost)
    ensures OwnBlock(ZERO_SLOT) == {}
    ensures lost !! OwnBlock(s) && lost !! heap.Keys - OwnBlock(ZERO_SLOT)
    ensures OwnBlock(s) !! heap.Keys - OwnBlock(ZERO_SLOT)
    ensures lost !! heap.Keys
    ensures heap'.Keys == heap.Keys - OwnBlock(ZERO_SLOT) + lost + OwnBlock(s)
    ensures forall a :: a in heap && a !in OwnBlock(ZERO_SLOT) ==> heap'[a] == heap[a]
  {
  }

  lemma HaltsAt(files: seq<Option<Octets>>, loads: seq<ReadFault>, i: nat)
    requires i < |files| == |loads| && FileHalts(files[i], loads[i])
    ensures StartHalts(files, loads)
  {
  }

  /** The first slots are what start-up makes of their files, and it has not halted on any of them. */
  ghost predicate LoadedUpTo(cache: seq<Entry>, files: seq<Option<Octets>>, loads: seq<ReadFault>,
                             seen: seq<ReadFault>) {
    && |seen| <= |cache| == |files| == |loads|
    && forall j :: 0 <= j < |seen| ==>
         && seen[j] == loads[j].(address := seen[j].address)
         && cache[j] == Entry(LoadedCell(files[j], seen[j]), false) && !FileHalts(files[j], loads[j])
  }

  lemma NothingLoaded(cache: seq<Entry>, files: seq<Option<Octets>>, loads: seq<ReadFault>)
    requires |cache| == |files| == |loads|
    ensures LoadedUpTo(cache, files, loads, []) && LostAtStart(files, loads, 0) == 0
  {
  }

  lemma LoadedOneMore(cache: seq<Entry>, files: seq<Option<Octets>>, loads: seq<ReadFault>, seen: seq<ReadFault>,
                      one: ReadFault)
    requires |seen| < |cache| && LoadedUpTo(cache, files, loads, seen)
    requires one == loads[|seen|].(address := one.address) && !FileHalts(files[|seen|], loads[|seen|])
    ensures LoadedUpTo(cache[|seen| := Entry(LoadedCell(files[|seen|], one), false)], files, loads, seen + [one])
    ensures LostAtStart(files, loads, |seen| + 1)
            == LostAtStart(files, loads, |seen|) + if ShrinksOnLoad(files[|seen|], loads[|seen|]) then 1 else 0
  {
  }

  /** The allocator's addresses decide neither about halting nor about what is lost. */
  lemma {:induction false} LostAlike(files: seq<Option<Octets>>, loads: seq<ReadFault>, seen: seq<ReadFault>, n: nat)
    requires n <= |files| == |loads| == |seen|
    requires forall j :: 0 <= j < |seen| ==> seen[j] == loads[j].(address := seen[j].address)
    ensures LostAtStart(files, seen, n) == LostAtStart(files, loads, n)
  {
    if n > 0 {
      LostAlike(files, loads, seen, n - 1);
    }
  }

  lemma StartsWith(files: seq<Option<Octets>>, loads: seq<ReadFault>, seen: seq<ReadFault>, cache: seq<Entry>)
    requires |seen| == |files| && LoadedUpTo(cache, files, loads, seen)
    ensures !StartHalts(files, loads) && Start(files, seen) == Up(cache, files, LostAtStart(files, loads, |files|))
    ensures forall j :: 0 <= j < |seen| ==> seen[j] == loads[j].(address := seen[j].address)
  {
    LostAlike(files, loads, seen, |files|);
    assert cache == Loaded(files, seen);
    forall j | 0 <= j < |files| ensures !FileHalts(files[j], seen[j]) {
      assert !FileHalts(files[j], loads[j]);
    }
  }

  lemma SetStep(d: Device, key: nat, t: ValueType, v: Octets, e: Entry, dropped: nat)
    requires d.Up? && key < |d.cache| == |d.files| && Settable(t) && 0 < |v| < VALUE_LIMIT
    requires e == Staged(d.cache[key], t, v)
    requires dropped == d.dropped + if Drops(d.cache[key].cell, |v|) then 1 else 0
    ensures Up(d.cache[key := e], d.files, dropped) == Step(d, Set(key, t, v))
  {
  }

  /** The block that staging n octets over s loses. */
  ghost function DroppedBlock(s: Slot, n: nat): set<nat> {
    if Long(s) && (s.t == TypeNone || n <= POINTER_SIZE) then OwnBlock(s) else {}
  }

  /** What a write does to the heap: the old block is freed, kept or dropped, and a new one is new. */
  ghost predicate BlockChange(s0: Slot, heap0: map<nat, Octets>, s: Slot, heap: map<nat, Octets>) {
    var own, own', drop := OwnBlock(s0), OwnBlock(s), DroppedBlock(s0, s.length);
    && drop !! own' && own' !! heap0.Keys - own
    && heap.Keys == heap0.Keys - own + drop + own'
    && forall a :: a in heap0 && a !in own ==> heap[a] == heap0[a]
  }

  lemma NoBlockChange(s: Slot, heap: map<nat, Octets>)
    requires SlotOk(s, heap)
    ensures s.t != TypeNone ==> BlockChange(s, heap, s, heap)
  {
  }

  /** Type and pending flag do not matter to the heap. */
  lemma Retagged(s0: Slot, heap0: map<nat, Octets>, s: Slot, heap: map<nat, Octets>, t: ValueType)
    requires BlockChange(s0, heap0, s, heap)
    ensures BlockChange(s0, heap0, s.(t := t, pending := true), heap)
  {
  }

  lemma MemorySlot(slots: seq<Slot>, heap: map<nat, Octets>, leaked: set<nat>, k: nat)
    requires Memory(slots, heap, leaked) && k < |slots|
    ensures SlotOk(slots[k], heap)
  {
  }

  lemma Accounted(slots: seq<Slot>, heap: map<nat, Octets>, leaked: set<nat>, k: nat, s: Slot, heap': map<nat, Octets>)
    requires Memory(slots, heap, leaked) && k < |slots|
    requires SlotOk(s, heap') && BlockChange(slots[k], heap, s, heap')
    ensures var drop := DroppedBlock(slots[k], s.length);
            && Memory(slots[k := s], heap', leaked + drop)
            && AbsSlots(slots[k := s], heap') == AbsSlots(slots, heap)[k := AbsSlot(s, heap')]
            && |leaked + drop| == |leaked| + if Drops(AbsSlot(slots[k], heap).cell, s.length) then 1 else 0
  {
    hide Owned, Distinct, SlotOk;
    var drop := DroppedBlock(slots[k], s.length);
    DroppedCount(slots[k], heap, s.length);
    ReplaceSlot(slots, heap, leaked, k, s, heap', drop);
    OwnedContains(slots, k);
    assert leaked !! drop;
  }

  lemma OwnedContains(slots: seq<Slot>, k: nat)
    requires k < |slots|
    ensures OwnBlock(slots[k]) <= Owned(slots)
  {
  }

  lemma DroppedCount(s: Slot, heap: map<nat, Octets>, n: nat)
    requires SlotOk(s, heap)
    ensures |DroppedBlock(s, n)| == if Drops(AbsSlot(s, heap).cell, n) then 1 else 0
    ensures DroppedBlock(s, n) <= OwnBlock(s)
  {
  }
}
