/** The growable buffer of buffer.h: two cursors over an allocation, seen as the bytes between them. */
module Buffer {
  import opened Bytes

  class Buffer {
    var store: array?<byte>        // from pos_begin_ to pos_end_; null before the first allocation
    var reading: nat
    var writing: nat

    ghost predicate Valid()
      reads this
    {
      if store == null then reading == writing == 0
      else store.Length > 0 && reading <= writing <= store.Length
    }

    /** The bytes written and not yet drained. */
    ghost function Unread(): seq<byte>
      requires Valid()
      reads this, store
    {
      if store == null then [] else store[reading..writing]
    }

    constructor ()
      ensures Valid() && Unread() == []
    {
      store, reading, writing := null, 0, 0;
    }

    function GetCapacity(): nat
      reads this
    {
      if store == null then 0 else store.Length
    }

    function GetWritingSize(): nat
      requires Valid()
      reads this
    {
      GetCapacity() - writing
    }

    /** Moves the unread bytes to the start of a new allocation. */
    method Reallocate(size: nat)
      requires Valid() && size > 0 && |Unread()| <= size
      modifies this
      ensures Valid() && fresh(store) && store.Length == size && reading == 0 && Unread() == old(Unread())
    {
      var room := new byte[size];
      var len := writing - reading;
      if store != null {
        var i := 0;
        while i < len
          invariant i <= len && room[..i] == store[reading..reading + i]
          modifies room
        {
          room[i] := store[reading + i];
          i := i + 1;
        }
      }
      store, reading, writing := room, 0, len;
    }

    /** EnsureSize: afterwards `need` bytes can be written, and no unread byte is lost. */
    method EnsureSize(need: nat) returns (ok: bool)
      requires Valid()
      modifies this, store
      ensures Valid() && ok && (store == old(store) || fresh(store)) && store != null
      ensures Unread() == old(Unread()) && GetWritingSize() >= need
    {
      if store == null {
        var len := 256;
        while len < need
          invariant len >= 256
          decreases need - len
        {
          len := len * 2;
        }
        Reallocate(len);
        return true;
      }
      if store.Length >= writing + need {
        return true;
      }
      var flen := (store.Length - writing) + reading;
      var dlen := writing - reading;
      if flen < need || flen * 4 < dlen {
        var size := store.Length * 2;
        while size - dlen < need
          invariant size >= 2 * store.Length
          decreases need + dlen - size
        {
          size := size * 2;
        }
        Reallocate(size);
      } else {
        MoveDown();
      }
      return true;
    }

    /** memmove of the unread bytes to the start of the allocation. */
    method MoveDown()
      requires Valid() && store != null
      modifies this`reading, this`writing, store
      ensures Valid() && Unread() == old(Unread()) && reading == 0 && writing == old(writing) - old(reading)
    {
      var len, from := writing - reading, reading;
      ghost var all := store[..];
      var i := 0;
      while i < len
        invariant i <= len && store[..i] == all[from..from + i]
        invariant forall k | i <= k < store.Length :: store[k] == all[k]
      {
        store[i] := store[from + i];
        i := i + 1;
      }
      reading, writing := 0, len;
      assert store[..len] == all[from..from + len];
    }

    /** Write appends. */
    method Write(data: seq<byte>) returns (ok: bool)
      requires Valid()
      modifies this, store
      ensures Valid() && ok && (store == old(store) || fresh(store))
      ensures Unread() == old(Unread()) + data
    {
      if writing + |data| > GetCapacity() {
        var _ := EnsureSize(|data|);
      }
      Fill(data);
      if |data| > 0 {
        writing := writing + |data|;
      }
      return true;
    }

    /** Puts bytes after the last one written, without moving the cursor. */
    method Fill(data: seq<byte>)
      requires Valid() && |data| <= GetWritingSize()
      modifies store
      ensures Valid() && Unread() == old(Unread())
      ensures data != [] ==> store != null && store[writing..writing + |data|] == data
      ensures data != [] ==> store[reading..writing + |data|] == old(Unread()) + data
    {
      if store == null {
        return;
      }
      var i := 0;
      ghost var start := store[reading..writing];
      while i < |data|
        invariant i <= |data| && store[writing..writing + i] == data[..i] && store[reading..writing] == start
      {
        store[writing + i] := data[i];
        i := i + 1;
      }
      assert store[reading..writing + |data|] == store[reading..writing] + store[writing..writing + |data|];
    }

    /** DrainReading drops bytes from the front, all of them if there are no more than `len`. */
    method DrainReading(len: nat)
      requires Valid()
      modifies this`reading, this`writing
      ensures Valid() && Unread() == old(Unread())[if len < |old(Unread())| then len else |old(Unread())|..]
    {
      reading := reading + len;
      if reading >= writing {
        ResetAll();
      }
    }

    method ResetAll()
      requires store == null || store.Length > 0
      modifies this`reading, this`writing
      ensures Valid() && Unread() == []
    {
      reading, writing := 0, 0;
    }

    /** PourWriting makes bytes put after the last one part of what is unread. */
    method PourWriting(len: nat) returns (ok: bool)
      requires Valid()
      modifies this`writing
      ensures Valid() && ok == (len <= old(GetWritingSize()))
      ensures !ok ==> Unread() == old(Unread())
      ensures ok && store != null ==> writing == old(writing) + len && Unread() == store[reading..old(writing) + len]
    {
      if GetCapacity() >= writing + len {
        writing := writing + len;
        return true;
      }
      return false;
    }

    /** StripWriting takes back bytes from the end. */
    method StripWriting(len: nat) returns (ok: bool)
      requires Valid()
      modifies this`writing
      ensures Valid() && ok == (len <= |old(Unread())|)
      ensures Unread() == if ok then old(Unread())[..|old(Unread())| - len] else old(Unread())
    {
      if writing >= reading + len {
        writing := writing - len;
        return true;
      }
      return false;
    }

    /** ShrinkSpace gives back memory when the allocation is larger than `maxSize` and the unread bytes
        fit; they are not lost. */
    method ShrinkSpace(maxSize: nat) returns (ok: bool)
      requires Valid() && maxSize > 0
      modifies this
      ensures Valid() && ok && Unread() == old(Unread())
      ensures GetCapacity() == if old(GetCapacity()) >= maxSize && |old(Unread())| <= maxSize then maxSize else old(GetCapacity())
    {
      if store == null {
        return true;
      }
      if store.Length < maxSize {
        return true;
      }
      if writing > reading + maxSize {
        return true;
      }
      Reallocate(maxSize);
      return true;
    }

    /** FindBytes: the first place at or after `from` where the pattern occurs, -1 if there is none. */
    method FindBytes(pattern: seq<byte>, from: int) returns (at: int)
      requires Valid()
      ensures at == -1 || (0 <= from <= at && Occurs(Unread(), pattern, at))
      ensures pattern != [] && from >= 0 ==> forall i | from <= i && (at == -1 || i < at) :: !Occurs(Unread(), pattern, i)
      ensures pattern == [] || from < 0 ==> at == -1
    {
      if from < 0 || |pattern| <= 0 {
        return -1;
      }
      var last := writing - reading - |pattern|;
      at := from;
      while at <= last
        invariant from <= at && forall i | from <= i < at :: !Occurs(Unread(), pattern, i)
        decreases last - at
      {
        ghost var u, n := Unread(), |pattern|;
        assert forall k | reading + at <= k < reading + at + n :: store[k] == u[k - reading];
        assert u[at..at + n] == store[reading + at..reading + at + n];
        assert store[reading + at] == store[reading + at..reading + at + |pattern|][0];
        if store[reading + at] == pattern[0] && store[reading + at..reading + at + |pattern|] == pattern {
          return;
        }
        at := at + 1;
      }
      at := -1;
    }
  }

  predicate Occurs(s: seq<byte>, pattern: seq<byte>, at: int) {
    0 <= at && at + |pattern| <= |s| && s[at..at + |pattern|] == pattern
  }
}
