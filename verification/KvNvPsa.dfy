/** The second storage backend: one PSA internal-trusted-storage object per key, in the same layout. */
module KvNvPsa {
  import opened Bytes
  import opened KvNv

  const PSA_SUCCESS: int := 0
  const PSA_FAILED: int := -1
  const PSA_ERROR_INVALID_ARGUMENT: int := -135
  const PSA_ERROR_DOES_NOT_EXIST: int := -140
  const PSA_ERROR_STORAGE_FAILURE: int := -146

  /** What either backend stores for a key, read as a typed value. */
  function View(objects: seq<Option<Octets>>): (v: seq<Option<Stored>>)
    ensures |v| == |objects|
    ensures forall i :: 0 <= i < |v| ==> v[i] == if objects[i].Some? then Parse(objects[i].value) else None
  {
    seq(|objects|, i requires 0 <= i < |objects| => if objects[i].Some? then Parse(objects[i].value) else None)
  }

  class ItsStore {
    var objects: seq<Option<Octets>>

    ghost predicate Valid()
      reads this
    {
      forall i :: 0 <= i < |objects| && objects[i].Some? ==> Parse(objects[i].value).Some?
    }

    /** psa_its_get: exactly size octets from offset on. A failed call leaves the length output alone. */
    method Get(key: nat, offset: nat, size: nat, length0: nat, works: bool)
      returns (status: int, data: Octets, length: nat)
      requires key < |objects|
      ensures if objects[key].Some? && works && offset + size <= |objects[key].value|
              then status == PSA_SUCCESS && data == objects[key].value[offset..offset + size] && length == size
              else status != PSA_SUCCESS && data == [] && length == length0
    {
      if objects[key].None? { return PSA_ERROR_DOES_NOT_EXIST, [], length0; }
      if offset + size > |objects[key].value| { return PSA_ERROR_INVALID_ARGUMENT, [], length0; }
      if !works { return PSA_ERROR_STORAGE_FAILURE, [], length0; }
      return PSA_SUCCESS, objects[key].value[offset..offset + size], size;
    }

    method GetLength(key: nat, works: bool) returns (len: nat)
      requires Valid() && key < |objects|
      ensures len == if works && objects[key].Some? then |Parse(objects[key].value).value.v| else 0
    {
      len := 0;
      if works && objects[key].Some? {
        len := |objects[key].value| - HEADER_LEN;
      }
    }

    /** Reads header and value; a short buffer gets a prefix, and the copied length is reported. When only the
        second access fails, the length left over from the header is compared with the one wanted. */
    method ReadValue(key: nat, buf: array<byte>, size: nat, headerWorks: bool, dataWorks: bool)
      returns (ok: bool, halted: bool, t: ValueType, len: nat)
      requires Valid() && key < |objects| && size <= buf.Length
      modifies buf
      ensures if objects[key].None? || size == 0 || !headerWorks
              then !ok && !halted && t == TypeNone && len == 0 && buf[..] == old(buf[..])
              else var st := Parse(objects[key].value).value;
                   var n := Min(size, |st.v|);
                   t == st.t &&
                   if dataWorks then ok && !halted && len == n && buf[..] == st.v[..n] + old(buf[n..])
                   else !ok && (halted <==> n != HEADER_LEN) && len == HEADER_LEN && buf[..] == old(buf[..])
    {
      t, len, halted := TypeNone, 0, false;
      var status := PSA_SUCCESS;
      var headerLen := 0;
      if size == 0 {
        status := PSA_FAILED;
      }
      if status == PSA_SUCCESS {
        var header;
        status, header, len := Get(key, 0, HEADER_LEN, len, headerWorks);
        if len != HEADER_LEN {
          status, len := PSA_FAILED, 0;
        } else {
          t, headerLen := Decode(header[0]), FromWord32(header[4..8]);
        }
      }
      if status == PSA_SUCCESS {
        var wanted := if size < headerLen then size else headerLen;
        var data;
        status, data, len := Get(key, HEADER_LEN, wanted, len, dataWorks);
        forall i | 0 <= i < |data| {
          buf[i] := data[i];
        }
        if len != wanted {
          return false, true, t, len;
        }
      }
      ok := status == PSA_SUCCESS;
    }

    /** One atomic set of header and value. */
    method WriteValue(key: nat, t: ValueType, v: Octets, works: bool) returns (ok: bool)
      requires Valid() && key < |objects| && !t.TypeOther? && |v| < SIZE_LIMIT
      modifies this
      ensures Valid() && (ok <==> t != TypeNone && works)
      ensures View(objects) == if ok then View(old(objects))[key := Some(Stored(t, v))] else View(old(objects))
    {
      var status := PSA_SUCCESS;
      if t == TypeNone {
        status := PSA_FAILED;
      }
      if status == PSA_SUCCESS {
        status := if works then PSA_SUCCESS else PSA_ERROR_STORAGE_FAILURE;
        if works {
          ParseOfFileOf(t, v);
          objects := objects[key := Some(FileOf(t, v))];
        }
      }
      ok := status == PSA_SUCCESS;
    }
  }

  /** The littlefs backend refines the same store: a clean write is seen as one update or one removal, an
      unopened file leaves the view alone, and the other keys keep their values. */
  lemma FileBackendRefines(files: seq<Option<Octets>>, key: nat, t: ValueType, v: Octets, f: WriteFault)
    requires key < |files| && Settable(t) && |v| < SIZE_LIMIT && Clean(f, |v|)
    ensures View(files[key := FileAfter(files[key], t, v, f)])
            == if Written(f, |v|) then View(files)[key := Some(Stored(t, v))]
               else if f.opens then View(files)[key := None]
               else View(files)
  {
    FileAfterCases(files[key], t, v, f);
    ParseOfFileOf(t, v);
  }

  /** Its reads answer from the same view: a faultless read of a stored value returns its type, length and octets, and
      the length query its length; the reader's assertion fails exactly for values of 256 octets and more. */
  lemma FileBackendReads(files: seq<Option<Octets>>, key: nat, st: Stored, r: ReadFault)
    requires key < |files| && View(files)[key] == Some(st) && Faultless(r) && |files[key].value| < SIZE_LIMIT
    ensures LengthAnswer(files[key], r) == |st.v|
    ensures ReadOutcome(files[key], r) == Some(st)
    ensures ReadHalts(files[key], r) <==> |st.v| >= VAL_MAX_LEN
  {
    var f := files[key].value;
    assert f[HEADER_LEN..|f|] == f[HEADER_LEN..];
  }
}
