/** The stream abstraction of rio.h and rio.c, over bytes B and checksums C. */
module Rio {
  import opened Bytes

  /** How a write to a file ends: in full, or short with only the first bytes kept. */
  datatype Fault = Succeeds | Fails(kept: nat)

  class Stream<B, C> {
    /** A file, where writes can fail and an empty transfer counts as failed; else memory. */
    const file: bool
    const update: Option<(C, seq<B>) -> C>
    var ptr: seq<B>
    var pos: nat
    var cksum: C
    /** How each of the coming writes to the file ends; all succeed once this runs out. */
    var faults: seq<Fault>
    /** Some write has failed. */
    ghost var lost: bool

    ghost predicate Valid()
      reads this
    {
      pos <= |ptr|
    }

    ghost function Rest(): seq<B>
      reads this
      requires Valid()
    {
      ptr[pos..]
    }

    /** The checksum after the update function, if any, has seen `data`. */
    function Updated(data: seq<B>): C
      reads this
    {
      if update.Some? then update.value(cksum, data) else cksum
    }

    /** rioInitWithBuffer and rioInitWithFile. */
    constructor (file: bool, ptr: seq<B>, update: Option<(C, seq<B>) -> C>, cksum: C, faults: seq<Fault>)
      ensures Valid()
      ensures this.file == file && this.ptr == ptr && pos == 0 && Rest() == ptr
      ensures this.update == update && this.cksum == cksum && this.faults == faults && !lost
    {
      this.file, this.ptr, this.update, this.cksum, this.faults := file, ptr, update, cksum, faults;
      pos, lost := 0, false;
    }

    /** rioWrite: the checksum sees the data even when the write fails, and a failed write to a file
        may leave a part of the data behind. */
    method Write(data: seq<B>) returns (ok: bool)
      requires Valid()
      modifies this
      ensures Valid()
      ensures cksum == old(Updated(data))
      ensures ok <==> !old(file && (data == [] || (faults != [] && faults[0].Fails?)))
      ensures ok ==> ptr == old(ptr) + data && pos == old(pos) + |data| && lost == old(lost)
      ensures !ok ==> lost && exists k :: 0 <= k <= |data| && ptr == old(ptr) + data[..k] && pos == old(pos) + k
      ensures !ok && old(faults) != [] && old(faults[0]) == Fails(0) ==> ptr == old(ptr) && pos == old(pos)
      ensures faults == if file && old(faults) != [] then old(faults)[1..] else old(faults)
    {
      if update.Some? { cksum := update.value(cksum, data); }
      ok := !(file && (data == [] || (faults != [] && faults[0].Fails?)));
      if ok {
        ptr, pos := ptr + data, pos + |data|;
      } else {
        var kept := if faults != [] && faults[0].Fails? && faults[0].kept <= |data| then faults[0].kept else 0;
        ptr, pos, lost := ptr + data[..kept], pos + kept, true;
      }
      if file && faults != [] { faults := faults[1..]; }
    }

    /** rioRead: the checksum sees only what was delivered. */
    method Read(len: nat) returns (r: Option<seq<B>>)
      requires Valid()
      modifies `pos, `cksum
      ensures Valid()
      ensures r == if |old(Rest())| < len || (file && len == 0) then None else Some(old(Rest())[..len])
      ensures r.Some? ==> pos == old(pos) + len && Rest() == old(Rest())[len..] && cksum == old(Updated(Rest()[..len]))
      ensures r.None? ==> pos == old(pos) && cksum == old(cksum)
    {
      if |ptr| - pos < len || (file && len == 0) { return None; }
      var data := ptr[pos..pos + len];
      assert data == Rest()[..len];
      pos := pos + len;
      if update.Some? { cksum := update.value(cksum, data); }
      return Some(data);
    }
  }
}
