/** The growable character buffer of src/rec-buf.c. */
module RecBuf {
  import opened Numbers

  const REC_BUF_STEP: nat := 512

  class Buf {
    var data: array<char>
    var used: nat

    ghost predicate Valid()
      reads this
    {
      used <= data.Length
    }

    ghost function Contents(): string
      requires Valid()
      reads this, data
    {
      data[..used]
    }

    constructor ()
      ensures Valid() && fresh(data) && Contents() == ""
    {
      data := new char[REC_BUF_STEP];
      used := 0;
    }

    method PutC(c: char)
      requires Valid()
      modifies this, data
      ensures Valid() && (data == old(data) || fresh(data))
      ensures Contents() == old(Contents()) + [c]
    {
      if used + 1 > data.Length {
        var bigger := new char[data.Length + REC_BUF_STEP];
        forall i | 0 <= i < used {
          bigger[i] := data[i];
        }
        data := bigger;
      }
      data[used] := c;
      used := used + 1;
      assert data[..used - 1] == old(Contents());
    }

    /** `rec_buf_puts` */
    method PutS(s: string)
      requires Valid()
      modifies this, data
      ensures Valid() && (data == old(data) || fresh(data))
      ensures Contents() == old(Contents()) + s
    {
      var i := 0;
      while i < |s|
        invariant i <= |s| && Valid() && (data == old(data) || fresh(data))
        invariant Contents() == old(Contents()) + s[..i]
      {
        PutC(s[i]);
        i := i + 1;
      }
    }

    /** The guard of the source compares an unsigned difference with zero, so it always
        holds: taking back more than was put wraps the position around. */
    method Rewind(n: nat)
      requires Valid()
      modifies this
      ensures data == old(data)
      ensures n <= old(used) ==> Valid() && Contents() == old(Contents())[..|old(Contents())| - n]
      ensures old(used) < n <= SIZE_MOD ==> used == old(used) + SIZE_MOD - n
    {
      used := if n <= used then used - n else (used + SIZE_MOD - n % SIZE_MOD) % SIZE_MOD;
    }

    /** `rec_buf_close` hands the contents over. */
    method Close() returns (s: string)
      requires Valid()
      ensures s == Contents()
    {
      s := data[..used];
    }
  }
}
