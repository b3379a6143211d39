/** The bounded forward reader under every parser (format/cursor.rs). */
module Cursors {
  import opened Bytes

  class Cursor {
    const buf: Bytes
    var pos: nat

    ghost predicate Valid()
      reads this
    {
      pos <= |buf|
    }

    constructor (buf: Bytes)
      ensures Valid() && this.buf == buf && pos == 0
    {
      this.buf := buf;
      pos := 0;
    }

    function Remaining(): nat
      reads this
      requires Valid()
    {
      |buf| - pos
    }

    /** What a read has not reached yet. */
    ghost function Rest(): Bytes
      reads this
      requires Valid()
    {
      buf[pos..]
    }

    /** Exactly `n` bytes, or an error that leaves the cursor where it was. */
    method Take(n: nat) returns (r: Result<Bytes>)
      requires Valid()
      modifies this
      ensures Valid()
      ensures n <= old(Remaining()) ==> r == Ok(old(Rest())[..n]) && Rest() == old(Rest())[n..]
      ensures n > old(Remaining()) ==> r == Err(HeaderCorrupt) && unchanged(this)
    {
      var end := pos + n;
      // Overflow of the sum and running past the buffer are the same error, so one test covers both.
      if end > |buf| {
        return Err(HeaderCorrupt);
      }
      assert buf[pos..][..n] == buf[pos..end] && buf[pos..][n..] == buf[end..];
      var out := buf[pos..end];
      pos := end;
      r := Ok(out);
    }

    method ReadLE(width: nat) returns (r: Result<nat>)
      requires Valid()
      modifies this
      ensures Valid()
      ensures width <= old(Remaining()) ==> r == Ok(FromLE(old(Rest())[..width])) && Rest() == old(Rest())[width..]
      ensures width <= old(Remaining()) ==> forall i: nat :: i < width ==> r.value / Pow256(i) % 256 == old(Rest())[i]
      ensures width > old(Remaining()) ==> r == Err(HeaderCorrupt) && unchanged(this)
    {
      var taken := Take(width);
      if taken.Err? {
        return Err(taken.error);
      }
      r := Ok(FromLE(taken.value));
      forall i: nat | i < width ensures r.value / Pow256(i) % 256 == old(Rest())[i] {
        FromLEByte(taken.value, i);
      }
    }

    method ReadU32LE() returns (r: Result<nat>)
      requires Valid()
      modifies this
      ensures Valid()
      ensures 4 <= old(Remaining()) ==> r == Ok(FromLE(old(Rest())[..4])) && Rest() == old(Rest())[4..]
      ensures 4 <= old(Remaining()) ==>
        var b := old(Rest());
        r.value == U32(b[0], b[1], b[2], b[3])
            == b[0] + 0x100 * (b[1] as nat + 0x100 * (b[2] as nat + 0x100 * b[3] as nat))
      ensures 4 <= old(Remaining()) ==> r.value <= U32_MAX
      ensures 4 > old(Remaining()) ==> r == Err(HeaderCorrupt) && unchanged(this)
    {
      r := ReadLE(4);
      if r.Ok? {
        FromLERoundTrip(old(Rest())[..4]);
        LESums(old(Rest())[..4]);
        Pow256Widths();
      }
    }
  }
}
