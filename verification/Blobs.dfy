/** The growable buffer of src/blob.c. */
module Blobs {
  import opened Basics

  /**
    A Blob starts out either empty, or referring to bytes owned by someone else (a string
    constant, a caller's array), which it must never write to.  `managed` says which
    reallocation function xRealloc points to.
    */
  class Blob {
    var data: array<byte>  // aData; length 0 stands for the null pointer
    var nUsed: nat
    var nAlloc: nat
    var managed: bool      // xRealloc is blobReallocMalloc

    ghost predicate Ok()
      reads this
    {
      && nUsed <= nAlloc <= data.Length
      && (!managed ==> nUsed == nAlloc || (nUsed == 0 && nAlloc == 1))
    }

    /** The contents. */
    ghost function Text(): seq<byte>
      requires Ok()
      reads this, data
    {
      data[..nUsed]
    }

    /** empty_blob */
    constructor Empty()
      ensures Ok() && Text() == [] && managed && fresh(data)
    {
      data := new byte[0];
      nUsed, nAlloc, managed := 0, 0, true;
    }

    /** blob_init on `size` bytes owned by the caller */
    constructor Borrow(z: array<byte>, size: nat)
      requires size <= z.Length
      ensures Ok() && data == z && Text() == z[..size] && !managed
    {
      data := z;
      nUsed, nAlloc, managed := size, size, false;
    }

    /** blob_zero: an empty blob that borrows the constant "" */
    constructor Zero(emptyString: array<byte>)
      requires emptyString.Length == 1
      ensures Ok() && data == emptyString && Text() == [] && !managed
    {
      data := emptyString;
      nUsed, nAlloc, managed := 0, 1, false;
    }

    /** blobReallocMalloc.  realloc() keeps the bytes that fit. */
    method ReallocMalloc(newSize: nat)
      requires Ok() && managed
      modifies this
      ensures Ok() && managed
      ensures newSize <= nAlloc
      ensures nUsed <= old(nUsed) && Text() == old(Text())[..nUsed]
      ensures nUsed == (if newSize < old(nUsed) && data != old(data) then newSize else old(nUsed))
      ensures nAlloc == ReallocSize(true, old(nAlloc), newSize)
      ensures newSize == 0 ==> nUsed == nAlloc == 0
      ensures data == old(data) || fresh(data)
    {
      if newSize == 0 {
        data := new byte[0];
        nAlloc, nUsed := 0, 0;
      } else if newSize > nAlloc || newSize + 4000 < nAlloc {
        var m := if nAlloc < newSize then nAlloc else newSize;
        data := Copied(data, m, newSize);
        nAlloc := newSize;
        if nUsed > nAlloc {
          nUsed := nAlloc;
        }
      }
    }

    /** blobReallocStatic: move the borrowed bytes to memory of our own. */
    method ReallocStatic(newSize: nat)
      requires Ok() && !managed
      modifies this
      ensures Ok() && managed && fresh(data)
      ensures newSize <= nAlloc
      ensures nUsed == (if newSize < old(nUsed) then newSize else old(nUsed))
      ensures Text() == old(Text())[..nUsed]
      ensures nAlloc == newSize
      ensures newSize == 0 ==> nUsed == nAlloc == 0
    {
      if newSize == 0 {
        data := new byte[0];
        nAlloc, nUsed := 0, 0;
      } else {
        if nUsed > newSize {
          nUsed := newSize;
        }
        data := Copied(data, nUsed, newSize);
        nAlloc := newSize;
      }
      managed := true;
    }

    /** xRealloc */
    method Realloc(newSize: nat)
      requires Ok()
      modifies this
      ensures Ok() && managed
      ensures newSize <= nAlloc
      ensures nUsed <= old(nUsed) && Text() == old(Text())[..nUsed]
      ensures newSize >= old(nUsed) ==> nUsed == old(nUsed)
      ensures nUsed >= (if newSize < old(nUsed) then newSize else old(nUsed))
      ensures nAlloc == ReallocSize(old(managed), old(nAlloc), newSize)
      ensures newSize == 0 ==> nUsed == nAlloc == 0
      ensures data == old(data) || fresh(data)
      ensures !old(managed) ==> fresh(data)
    {
      if managed { ReallocMalloc(newSize); } else { ReallocStatic(newSize); }
    }

    /** blob_append_full.  When it must grow, it takes all the old capacity, the new bytes and 100 more;
        the check that follows in the C code cannot fail. */
    method AppendFull(s: seq<byte>)
      requires Ok()
      modifies this, data
      ensures Ok() && Text() == old(Text()) + s
      ensures data == old(data) || fresh(data)
      ensures !old(managed) ==> old(data)[..] == old(data[..])
      ensures s != [] ==> managed && nUsed < nAlloc && data[nUsed] == 0
      ensures s != [] ==>
        nAlloc == if old(nUsed) + |s| >= old(nAlloc) then old(nUsed) + |s| + old(nAlloc) + 100 else old(nAlloc)
    {
      if |s| == 0 { return; }
      var nNew := nUsed + |s|;
      if nNew >= nAlloc {
        nNew := nNew + nAlloc + 100;
        Realloc(nNew);
        assert nUsed + |s| < nAlloc;
      }
      CopyIn(s);
    }

    /** The copying at the end of blob_append_full and blob_append. */
    method CopyIn(s: seq<byte>)
      requires Ok() && managed && nUsed + |s| < nAlloc
      modifies this`nUsed, data
      ensures Ok() && Text() == old(Text()) + s && data[nUsed] == 0
    {
      var d, n := data, nUsed;
      forall i | 0 <= i < |s| { d[n + i] := s[i]; }
      d[n + |s|] := 0;
      nUsed := n + |s|;
    }

    /** blob_append: the fast way in when there is room. */
    method Append(s: seq<byte>)
      requires Ok()
      modifies this, data
      ensures Ok() && Text() == old(Text()) + s
      ensures data == old(data) || fresh(data)
      ensures !old(managed) ==> old(data)[..] == old(data[..])
      ensures s != [] ==> managed && nUsed < nAlloc && data[nUsed] == 0
    {
      if |s| == 0 || nUsed + |s| >= nAlloc {
        AppendFull(s);
        return;
      }
      CopyIn(s);
    }

    /** blob_append_char.  On the fast way it leaves no terminator behind, only room for one. */
    method AppendChar(c: byte)
      requires Ok()
      modifies this, data
      ensures Ok() && Text() == old(Text()) + [c] && managed && nUsed < nAlloc
      ensures data == old(data) || fresh(data)
      ensures !old(managed) ==> old(data)[..] == old(data[..])
    {
      if nUsed + 1 >= nAlloc {
        AppendFull([c]);
      } else {
        data[nUsed] := c;
        nUsed := nUsed + 1;
      }
    }

    /** blob_resize.  Bytes past the old contents are whatever the allocator left there. */
    method Resize(newSize: nat)
      requires Ok()
      modifies this, data
      ensures Ok() && managed && nUsed == newSize < nAlloc && data[newSize] == 0
      ensures nAlloc == ReallocSize(old(managed), old(nAlloc), newSize + 1)
      ensures data == old(data) || fresh(data)
      ensures !old(managed) ==> fresh(data)
      ensures !old(managed) ==> old(data)[..] == old(data[..])
      ensures newSize >= old(nUsed) ==> Text()[..old(nUsed)] == old(Text())
      ensures newSize <= old(nUsed) ==> Text() == old(Text())[..newSize]
    {
      Realloc(newSize + 1);
      assert newSize >= old(nUsed) ==> data[..old(nUsed)] == old(Text());
      nUsed := newSize;
      data[newSize] := 0;
      assert newSize >= old(nUsed) ==> data[..old(nUsed)] == old(Text());
    }

    /** blob_materialize */
    method Materialize()
      requires Ok()
      modifies this, data
      ensures Ok() && Text() == old(Text()) && managed && nUsed < nAlloc && data[nUsed] == 0
      ensures data == old(data) || fresh(data)
      ensures !old(managed) ==> fresh(data)
      ensures !old(managed) ==> old(data)[..] == old(data[..])
    {
      Resize(nUsed);
    }

    /** blob_str: afterwards the contents are followed by a zero byte, and nothing borrowed was written. */
    method Str()
      requires Ok()
      modifies this, data
      ensures Ok() && Text() == old(Text()) && nUsed < nAlloc && data[nUsed] == 0
      ensures data == old(data) || fresh(data)
      ensures !old(managed) ==> old(data)[..] == old(data[..])
    {
      if nUsed == 0 {
        AppendChar(0);
        nUsed := 0;
      }
      if nUsed < nAlloc {
        data[nUsed] := 0;
      } else {
        Materialize();
      }
    }

    /** blob_reset */
    method Reset()
      requires Ok()
      modifies this
      ensures Ok() && Text() == [] && managed
      ensures data == old(data) || fresh(data)
    {
      Realloc(0);
    }
  }

  /** The capacity after a reallocation: what was asked for, unless the memory is its own, large enough, and not more
      than 4000 bytes too large. */
  function ReallocSize(managed: bool, nAlloc: nat, newSize: nat): nat {
    if managed && newSize > 0 && newSize <= nAlloc <= newSize + 4000 then nAlloc else newSize
  }

  /** A new array of n bytes starting with the first m of `from`. */
  method Copied(from: array<byte>, m: nat, n: nat) returns (to: array<byte>)
    requires m <= n && m <= from.Length
    ensures fresh(to) && to.Length == n && to[..m] == from[..m]
  {
    to := new byte[n];
    forall i | 0 <= i < m { to[i] := from[i]; }
  }
}
