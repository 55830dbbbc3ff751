/** One littlefs file per key: an eight-octet type/length header followed by the value. */
module KvNv {
  import opened Bytes

  /** TypeOther is a code outside the enumeration, as only a file that the store did not write can hold. */
  datatype ValueType =
    TypeNone | TypeBase | TypeUBase | TypeInt32 | TypeUInt32 | TypeString | TypeBlob | TypeOther(code: byte)

  const HEADER_LEN: nat := 8
  const VAL_MAX_LEN: nat := 256

  /** A value and its header have a size that fits into size_t. */
  const VALUE_LIMIT: nat := SIZE_LIMIT - HEADER_LEN

  const LFS_ERR_OK: int := 0
  const LFS_ERR_IO: int := -5
  const LFS_ERR_CORRUPT: int := -84

  function Code(t: ValueType): byte {
    match t
    case TypeNone => 0
    case TypeBase => 1
    case TypeUBase => 2
    case TypeInt32 => 3
    case TypeUInt32 => 4
    case TypeString => 5
    case TypeBlob => 6
    case TypeOther(c) => c
  }

  /** The target's ABI packs the enumeration into one octet. */
  function Decode(c: byte): ValueType {
    match c
    case 0 => TypeNone
    case 1 => TypeBase
    case 2 => TypeUBase
    case 3 => TypeInt32
    case 4 => TypeUInt32
    case 5 => TypeString
    case 6 => TypeBlob
    case _ => TypeOther(c)
  }

  /** The types that the store accepts for a value. */
  predicate Settable(t: ValueType) {
    t != TypeNone && !t.TypeOther?
  }

  /** sizeof(void *): longer values live on the heap. */
  const POINTER_SIZE: nat := 4

  type Word = o: Octets | |o| == POINTER_SIZE witness [0, 0, 0, 0]

  /** Little-endian word of the target. */
  function Word32(n: nat): (o: Octets)
    ensures |o| == 4
  {
    [n % 0x100, n / 0x100 % 0x100, n / 0x100 / 0x100 % 0x100, n / 0x100 / 0x100 / 0x100 % 0x100]
  }

  function FromWord32(o: Octets): nat
    requires |o| == 4
  {
    o[0] as int + 0x100 * (o[1] as int + 0x100 * (o[2] as int + 0x100 * o[3] as int))
  }

  lemma FromWord32OfWord32(n: nat)
    requires n < SIZE_LIMIT
    ensures FromWord32(Word32(n)) == n
  {
  }

  function Header(t: ValueType, len: nat): (h: Octets)
    ensures |h| == HEADER_LEN
  {
    [Code(t), 0, 0, 0] + Word32(len)
  }

  function FileOf(t: ValueType, v: Octets): Octets {
    Header(t, |v|) + v
  }

  datatype Stored = Stored(t: ValueType, v: Octets)

  /** The number of octets a header announces. */
  function HeaderLength(f: Octets): nat
    requires |f| >= HEADER_LEN
  {
    FromWord32(f[4..8])
  }

  /** The value a file holds when it is well formed: a real type, and as many octets as announced. */
  function Parse(f: Octets): Option<Stored> {
    if |f| >= HEADER_LEN && f[1..4] == [0, 0, 0] && Decode(f[0]) != TypeNone && HeaderLength(f) == |f| - HEADER_LEN
    then Some(Stored(Decode(f[0]), f[HEADER_LEN..]))
    else None
  }

  lemma ParseOfFileOf(t: ValueType, v: Octets)
    requires Settable(t) && |v| < SIZE_LIMIT
    ensures Parse(FileOf(t, v)) == Some(Stored(t, v))
  {
    var f := FileOf(t, v);
    FromWord32OfWord32(|v|);
    assert f[1..4] == [0, 0, 0] && f[4..8] == Word32(|v|) && f[HEADER_LEN..] == v;
  }

  /** The layout in octets: the type's place in the enumeration, and the length with the least significant octet first. */
  lemma FileLayout(t: ValueType, v: Octets)
    requires Settable(t) && |v| < SIZE_LIMIT
    ensures var f := FileOf(t, v);
            && f[0] == (match t case TypeBase => 1 case TypeUBase => 2 case TypeInt32 => 3 case TypeUInt32 => 4
                                case TypeString => 5 case TypeBlob => 6)
            && f[4] as int + 0x100 * f[5] as int + 0x1_0000 * f[6] as int + 0x100_0000 * f[7] as int == |v|
            && f[8..] == v
  {
    FromWord32OfWord32(|v|);
  }

  // ---- Faults -----------------------------------------------------------

  /** What littlefs answers during one write, and what it leaves behind when it misbehaves: the number of octets that
      each of the two file writes took, or an error, and whether syncing and removing worked. An open that fails may
      still have created the file; it is intact when it has not. */
  datatype WriteFault = WriteFault(opens: bool, intact: bool, headerRet: int, dataRet: int, synced: bool,
                                   removed: bool, remnant: Option<Octets>)

  /** What littlefs answers while one value is read back, and the address that the allocator gives its block. */
  datatype ReadFault = ReadFault(statsLength: bool, statsFile: bool, opens: bool, readsHeader: bool, readsData: bool,
                                 address: Word)

  /** The writer's own verdict. */
  predicate Written(f: WriteFault, len: nat) {
    f.opens && f.headerRet == HEADER_LEN && f.dataRet == len
  }

  /** The octets that one file write appends. */
  function Taken(data: Octets, ret: int): (o: Octets)
    ensures |o| <= |data| && o == data[..|o|]
  {
    if ret <= 0 then [] else data[..Min(ret, |data|)]
  }

  /** What the open file holds after the writes. The value is not written after a header that was not taken whole. */
  function OpenContents(t: ValueType, v: Octets, f: WriteFault): Octets {
    Taken(Header(t, |v|), f.headerRet) + if f.headerRet == HEADER_LEN then Taken(v, f.dataRet) else []
  }

  /** A write has failed; littlefs then does not sync the file any more. */
  predicate Erred(f: WriteFault) {
    f.headerRet < 0 || (f.headerRet == HEADER_LEN && f.dataRet < 0)
  }

  /** What is on flash after the file has been synced and closed. */
  function Closed(t: ValueType, v: Octets, f: WriteFault): Option<Octets> {
    if f.synced && !Erred(f) then Some(OpenContents(t, v, f)) else f.remnant
  }

  function FileAfter(was: Option<Octets>, t: ValueType, v: Octets, f: WriteFault): Option<Octets> {
    if !f.opens then if f.intact then was else f.remnant
    else if Written(f, |v|) || !f.removed then Closed(t, v, f)
    else None
  }

  /** Both writes took everything exactly when the open file holds header and value. */
  lemma TakenWhole(t: ValueType, v: Octets, f: WriteFault)
    requires f.headerRet <= HEADER_LEN && f.dataRet <= |v| && v != []
    ensures OpenContents(t, v, f) == FileOf(t, v) <==> f.headerRet == HEADER_LEN && f.dataRet == |v|
  {
    if OpenContents(t, v, f) == FileOf(t, v) {
      assert |OpenContents(t, v, f)| == HEADER_LEN + |v|;
    }
  }

  /** What the outcome of a write means, by the answers of littlefs alone. */
  lemma FileAfterCases(was: Option<Octets>, t: ValueType, v: Octets, f: WriteFault)
    ensures f.opens && f.headerRet == HEADER_LEN && f.dataRet == |v| && f.synced
            ==> FileAfter(was, t, v, f) == Some(FileOf(t, v))
    ensures f.opens && (f.headerRet != HEADER_LEN || f.dataRet != |v|) && f.removed ==> FileAfter(was, t, v, f) == None
    ensures !f.opens && f.intact ==> FileAfter(was, t, v, f) == was
    ensures f.opens && Written(f, |v|) && !f.synced ==> FileAfter(was, t, v, f) == f.remnant
  {
    if Written(f, |v|) {
      assert v[..|v|] == v && Header(t, |v|)[..HEADER_LEN] == Header(t, |v|);
    }
  }

  /** A failed open creates nothing, closing a good write reaches the flash, and removing a bad one succeeds. */
  predicate Clean(f: WriteFault, len: nat) {
    if !f.opens then f.intact else if Written(f, len) then f.synced else f.removed
  }

  predicate ReadsBack(r: ReadFault) {
    r.statsFile && r.opens && r.readsHeader && r.readsData
  }

  predicate Faultless(r: ReadFault) {
    r.statsLength && ReadsBack(r)
  }

  /** The header of a file is read: the file is there, long enough, and nothing fails. */
  predicate ReadsHeader(file: Option<Octets>, r: ReadFault) {
    file.Some? && |file.value| >= HEADER_LEN && r.statsFile && r.opens && r.readsHeader
  }

  /** The reader asserts that the header announces fewer than VAL_MAX_LEN octets. */
  predicate ReadHalts(file: Option<Octets>, r: ReadFault) {
    ReadsHeader(file, r) && HeaderLength(file.value) >= VAL_MAX_LEN
  }

  /** What the reader returns: as many octets as the header announces, whatever the size of the file. */
  function ReadOutcome(file: Option<Octets>, r: ReadFault): Option<Stored> {
    if ReadsHeader(file, r) && r.readsData && HeaderLength(file.value) <= |file.value| - HEADER_LEN
    then Some(Stored(Decode(file.value[0]), file.value[HEADER_LEN..HEADER_LEN + HeaderLength(file.value)]))
    else None
  }

  /** The size of a file less that of the header, in the 32-bit arithmetic of size_t. */
  function LengthAnswer(file: Option<Octets>, r: ReadFault): nat {
    if file.Some? && r.statsLength then (|file.value| - HEADER_LEN) % SIZE_LIMIT else 0
  }

  function LfsSSizeToErr(ret: int, expected: nat): int {
    if ret == expected then LFS_ERR_OK
    else if ret >= 0 then LFS_ERR_CORRUPT
    else ret
  }

  class NvStore {
    var files: seq<Option<Octets>>

    method GetLength(key: nat, r: ReadFault) returns (len: nat)
      requires key < |files|
      ensures len == LengthAnswer(files[key], r)
    {
      len := 0;
      if r.statsLength && files[key].Some? {
        len := (|files[key].value| - HEADER_LEN) % SIZE_LIMIT;
      }
    }

    /** On failure the type and length outputs keep their values. */
    method ReadValue(key: nat, t0: ValueType, len0: nat, r: ReadFault)
      returns (ok: bool, halted: bool, t: ValueType, len: nat, data: Octets)
      requires key < |files|
      ensures halted <==> ReadHalts(files[key], r)
      ensures ok <==> !halted && ReadOutcome(files[key], r).Some?
      ensures ok ==> ReadOutcome(files[key], r) == Some(Stored(t, data)) && len == |data|
      ensures !ok ==> t == t0 && len == len0 && data == []
    {
      t, len, data, halted := t0, len0, [], false;
      var ret := LFS_ERR_CORRUPT;
      if r.statsFile && files[key].Some? && |files[key].value| >= HEADER_LEN {
        var file := files[key].value;
        ret := if r.opens then LFS_ERR_OK else LFS_ERR_IO;
        var headerType, headerLen := TypeNone, 0;
        if ret == LFS_ERR_OK {
          ret := LfsSSizeToErr(if r.readsHeader then HEADER_LEN else LFS_ERR_IO, HEADER_LEN);
          if r.readsHeader {
            headerType, headerLen := Decode(file[0]), FromWord32(file[4..8]);
          }
        }
        if headerLen >= VAL_MAX_LEN {
          return false, true, t0, len0, [];
        }
        if ret >= LFS_ERR_OK {
          var available := |file| - HEADER_LEN;
          var got := if headerLen < available then headerLen else available;
          ret := LfsSSizeToErr(if r.readsData then got else LFS_ERR_IO, headerLen);
        }
        if ret == LFS_ERR_OK {
          t, len, data := headerType, headerLen, file[HEADER_LEN..HEADER_LEN + headerLen];
        }
      }
      ok := ret == LFS_ERR_OK;
    }

    /** Truncates or creates the file, appends header and data, and removes it again if that failed. */
    method WriteValue(key: nat, t: ValueType, v: Octets, f: WriteFault) returns (ok: bool)
      requires key < |files|
      modifies this
      ensures ok <==> f.opens && f.headerRet == HEADER_LEN && f.dataRet == |v|
      ensures files == old(files)[key := FileAfter(old(files[key]), t, v, f)]
      ensures ok && f.synced ==> files[key] == Some(FileOf(t, v))
      ensures f.opens && !ok && f.removed ==> files[key] == None
    {
      FileAfterCases(files[key], t, v, f);
      var ret := if f.opens then LFS_ERR_OK else LFS_ERR_IO;
      var openFlag := false;
      var contents: Octets := [];
      if ret == LFS_ERR_OK {
        openFlag := true;
        contents := contents + Taken(Header(t, |v|), f.headerRet);
        ret := LfsSSizeToErr(f.headerRet, HEADER_LEN);
      }
      if ret == LFS_ERR_OK {
        contents := contents + Taken(v, f.dataRet);
        ret := LfsSSizeToErr(f.dataRet, |v|);
      }
      if openFlag {
        // Sync and close: what the file holds reaches the flash, unless a write or syncing has failed.
        assert contents == OpenContents(t, v, f);
        files := files[key := if f.synced && !Erred(f) then Some(contents) else f.remnant];
        if ret != LFS_ERR_OK && f.removed {
          files := files[key := None];
        }
      } else if !f.intact {
        files := files[key := f.remnant];
      }
      ok := ret == LFS_ERR_OK;
    }
  }
}
