/** The growable byte buffer that messages and HTTP headers are read into. */
module Buffer {
  import opened Errors
  import opened Socket

  const SIZE_MAX: nat := 0xFFFF_FFFF_FFFF_FFFF

  type size_t = n: nat | n <= SIZE_MAX

  class Buffer {
    var maxSize: nat
    var capacity: nat
    var used: nat
    var storage: array?<byte>

    ghost predicate Valid()
      reads this
    {
      && used <= capacity <= maxSize <= SIZE_MAX
      && (storage == null ==> capacity == 0)
      && (storage != null ==> storage.Length == if capacity == 0 then 1 else capacity)
    }

    /** The stored bytes. */
    function Data(): (d: seq<byte>)
      requires Valid()
      reads this, storage
      ensures |d| == used
    {
      if storage == null then [] else storage[..used]
    }

    constructor (maxSize: nat)
      requires maxSize <= SIZE_MAX
      ensures Valid() && Data() == [] && this.maxSize == maxSize && storage == null
    {
      this.maxSize, capacity, used, storage := maxSize, 0, 0, null;
    }

    method Clear()
      requires Valid()
      modifies this`used
      ensures Valid() && Data() == []
    {
      used := 0;
    }

    method Reset()
      requires Valid()
      modifies this
      ensures Valid() && Data() == [] && capacity == 0 && maxSize == old(maxSize) && storage == null
    {
      storage, capacity, used := null, 0, 0;
    }

    /** Set the largest size the buffer may grow to; it must cover what is allocated. */
    method SetMaxSize(n: nat)
      requires Valid() && capacity <= n <= SIZE_MAX
      modifies this`maxSize
      ensures Valid() && maxSize == n && Data() == old(Data())
    {
      maxSize := n;
    }

    /** `realloc` to exactly `size` bytes (but at least one), keeping what fits. */
    method InternalReserve(size: nat) returns (r: Result<()>)
      requires Valid()
      modifies this`storage, this`capacity, this`used
      ensures Valid()
      ensures r.Ok? <==> size <= maxSize
      ensures r.Ok? ==> fresh(storage) && capacity == size
      ensures r.Ok? ==> Data() == if size < old(used) then old(Data())[..size] else old(Data())
      ensures r.Err? ==> r.error == WSError(BufferError, NOT_SET)
      ensures r.Err? ==> storage == old(storage) && capacity == old(capacity) && used == old(used)
    {
      if size > maxSize {
        return Err(WSError(BufferError, NOT_SET));
      }
      var n := if size == 0 then 1 else size;
      var newbuf := new byte[n];
      var oldbuf := storage;
      if oldbuf != null {
        var keep := if oldbuf.Length < n then oldbuf.Length else n;
        forall i | 0 <= i < keep {
          newbuf[i] := oldbuf[i];
        }
        assert newbuf[..keep] == oldbuf[..keep];
      }
      storage, capacity := newbuf, size;
      used := if used < size then used else size;
      r := Ok(());
    }

    /** Make room for at least `size` bytes. */
    method Reserve(size: nat) returns (r: Result<()>)
      requires Valid()
      modifies this`storage, this`capacity, this`used
      ensures Valid() && Data() == old(Data())
      ensures r.Ok? <==> size <= maxSize
      ensures r.Ok? ==> size <= capacity
      ensures storage == old(storage) || fresh(storage)
    {
      if size > capacity {
        r := InternalReserve(size);
      } else {
        r := Ok(());
      }
    }

    /** Set the length to `size`: truncates, or extends with unspecified bytes. */
    method Resize(size: nat) returns (r: Result<()>)
      requires Valid()
      modifies this`storage, this`capacity, this`used
      ensures Valid()
      ensures r.Ok? <==> size <= maxSize
      ensures r.Ok? ==> used == capacity == size
      ensures r.Ok? && size <= old(used) ==> Data() == old(Data())[..size]
      ensures r.Ok? && size >= old(used) ==> old(Data()) <= Data()
      ensures r.Err? ==> r.error == WSError(BufferError, NOT_SET) && Data() == old(Data())
      ensures storage == old(storage) || fresh(storage)
    {
      if size != capacity {
        r := InternalReserve(size);
        if r.Err? {
          return;
        }
      }
      used := size;
      r := Ok(());
    }

    /** Drop `size` bytes from the end. */
    method DiscardEnd(size: nat)
      requires Valid() && size <= used
      modifies this`used
      ensures Valid() && Data() == old(Data())[..old(used) - size]
    {
      used := used - size;
    }

    /**
     Extend the buffer by `size` unspecified bytes and return where they start.
     The sum of the sizes must not exceed what a `size_t` holds.
     */
    method Append(size: nat) returns (r: Result<nat>)
      requires Valid() && used + size <= SIZE_MAX
      modifies this`storage, this`capacity, this`used
      ensures Valid()
      ensures r.Ok? <==> old(used) + size <= maxSize
      ensures r.Ok? ==>
                && r.value == old(used)
                && used == old(used) + size
                && Data()[..r.value] == old(Data())
      ensures r.Err? ==> r.error == WSError(BufferError, NOT_SET) && Data() == old(Data())
      ensures storage == old(storage) || fresh(storage)
      ensures r.Ok? && size > 0 ==> storage != null && used <= storage.Length
    {
      var pos := used;
      var newPos := pos + size;
      if newPos > capacity {
        var res := InternalReserve(newPos);
        if res.Err? {
          return Err(res.error);
        }
      }
      used := newPos;
      r := Ok(pos);
    }

    /** Append a copy of `data`. */
    method AppendCopy(data: seq<byte>) returns (r: Result<nat>)
      requires Valid() && used + |data| <= SIZE_MAX
      modifies this`storage, this`capacity, this`used, storage
      ensures Valid()
      ensures r.Ok? <==> old(used) + |data| <= maxSize
      ensures r.Ok? ==> r.value == old(used) && Data() == old(Data()) + data
      ensures r.Err? ==> r.error == WSError(BufferError, NOT_SET) && Data() == old(Data())
      ensures storage == old(storage) || fresh(storage)
    {
      r := Append(|data|);
      if r.Ok? {
        ghost var d := Data();
        forall i | 0 <= i < |data| {
          storage[r.value + i] := data[i];
        }
        assert Data() == d[..r.value] + data;
      }
    }
  }
}
