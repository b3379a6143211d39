/** Copying a sparse file without filling its holes (blindkey-sys/src/fs_linux.rs). */
module CopyHoles {
  import opened Bytes

  const BUFFER_LEN := 256 * 1024
  /** The buffer of `std::io::copy`. */
  const COPY_BUFFER_LEN := 8192

  /**
   The file copied from: its bytes, and which of them the file system holds as data. Its system calls are
   any the kernel could make of them.
   */
  class Source {
    const content: Bytes
    const data: nat -> bool
    var offset: nat
    /** Where `SEEK_DATA` or `SEEK_HOLE` first failed, so that the kernel did not say what is data and what is not. */
    ghost var gaveUp: Option<nat>
    /** Whether a seek or read of the copy has failed. */
    ghost var failed: bool

    /** Holes read as zeros. */
    ghost predicate Valid() {
      forall i: nat :: i < |content| && !data(i) ==> content[i] == 0
    }

    constructor (content: Bytes, data: nat -> bool)
      ensures this.content == content && this.data == data && gaveUp == None && !failed
    {
      this.content, this.data, offset, gaveUp, failed := content, data, 0, None, false;
    }

    /** `SEEK_DATA`: an offset at or after `pos` with no data skipped. It also fails when no data follows. */
    method SeekData(pos: nat) returns (r: Result<nat>)
      modifies this`gaveUp
      ensures r.Ok? ==> pos <= r.value && forall i: nat :: pos <= i < r.value && i < |content| ==> !data(i)
      ensures gaveUp == if r.Err? && old(gaveUp).None? then Some(pos) else old(gaveUp)
    {
      var d: nat := *;
      if pos <= d && forall i: nat | pos <= i < d :: i < |content| ==> !data(i) {
        return Ok(d);
      }
      gaveUp := if gaveUp.None? then Some(pos) else gaveUp;
      r := Err(Io);
    }

    /** `SEEK_HOLE`: an offset at or after `pos` where a hole begins, or the end, with only data before it. */
    method SeekHole(pos: nat) returns (r: Result<nat>)
      modifies this`gaveUp
      ensures r.Ok? ==> pos <= r.value && forall i: nat :: pos <= i < r.value && i < |content| ==> data(i)
      ensures r.Ok? && r.value < |content| ==> !data(r.value)
      ensures gaveUp == if r.Err? && old(gaveUp).None? then Some(pos) else old(gaveUp)
    {
      var h: nat := *;
      if pos <= h && (h < |content| ==> !data(h)) && forall i: nat | pos <= i < h :: i < |content| ==> data(i) {
        return Ok(h);
      }
      gaveUp := if gaveUp.None? then Some(pos) else gaveUp;
      r := Err(Io);
    }

    method Seek(pos: nat) returns (r: Result<Unit>)
      modifies this`offset, this`failed
      ensures r.Ok? ==> offset == pos
      ensures failed <==> old(failed) || r.Err?
    {
      var works: bool := *;
      if !works {
        failed := true;
        return Err(Io);
      }
      offset := pos;
      r := Ok(Unit);
    }

    /** Up to `n` bytes; as few as one, but none only at the end of the file. */
    method Read(n: nat) returns (r: Result<Bytes>)
      modifies this`offset, this`failed
      ensures failed <==> old(failed) || r.Err?
      ensures r.Ok? ==> |r.value| <= n
      ensures r.Ok? && old(offset) < |content| ==>
        old(offset) + |r.value| <= |content| && r.value == content[old(offset)..old(offset) + |r.value|]
      ensures r.Ok? ==> offset == old(offset) + |r.value|
      ensures r.Ok? && n > 0 ==> (r.value == [] <==> old(offset) >= |content|)
    {
      if n == 0 || offset >= |content| {
        return Ok([]);
      }
      var k: nat := *;
      if !(0 < k <= n && offset + k <= |content|) {
        failed := true;
        return Err(Io);
      }
      r := Ok(content[offset..offset + k]);
      offset := offset + k;
    }
  }

  /** The file copied to, and which of its bytes were ever written rather than left a hole. */
  class Target {
    var content: Bytes
    var offset: nat
    ghost var written: nat -> bool
    /** Whether resizing, seeking or writing has failed. */
    ghost var failed: bool

    /** Opened with truncation. */
    constructor ()
      ensures content == [] && offset == 0 && !failed && forall i :: !written(i)
    {
      content, offset, written, failed := [], 0, _ => false, false;
    }

    method SetLen(n: nat) returns (r: Result<Unit>)
      requires content == []
      modifies this`content, this`failed
      ensures r.Ok? ==> content == Zeros(n)
      ensures failed <==> old(failed) || r.Err?
    {
      var works: bool := *;
      if !works {
        failed := true;
        return Err(Io);
      }
      content := Zeros(n);
      r := Ok(Unit);
    }

    method Seek(pos: nat) returns (r: Result<Unit>)
      modifies this`offset, this`failed
      ensures r.Ok? ==> offset == pos
      ensures failed <==> old(failed) || r.Err?
    {
      var works: bool := *;
      if !works {
        failed := true;
        return Err(Io);
      }
      offset := pos;
      r := Ok(Unit);
    }

    method WriteAll(b: Bytes) returns (r: Result<Unit>)
      requires offset + |b| <= |content|
      modifies this
      ensures r.Ok? ==>
        && content == old(content)[..old(offset)] + b + old(content)[old(offset) + |b|..]
        && offset == old(offset) + |b|
        && forall i: nat :: written(i) <==> old(written)(i) || old(offset) <= i < old(offset) + |b|
      ensures failed <==> old(failed) || r.Err?
    {
      var works: bool := *;
      if !works {
        failed := true;
        return Err(Io);
      }
      var start, end := offset, offset + |b|;
      content := content[..start] + b + content[end..];
      ghost var before := written;
      written := (i: nat) => before(i) || start <= i < end;
      offset := end;
      r := Ok(Unit);
    }
  }

  /** The target holds the source's first `n` bytes, and zeros after them. */
  ghost predicate CopiedUpTo(src: Bytes, dst: Bytes, n: nat) {
    && |dst| == |src| && n <= |src|
    && dst == src[..n] + Zeros(|src| - n)
  }

  lemma CopyMore(src: Bytes, dst: Bytes, n: nat, b: Bytes)
    requires CopiedUpTo(src, dst, n) && n + |b| <= |src| && b == src[n..n + |b|]
    ensures CopiedUpTo(src, dst[..n] + b + dst[n + |b|..], n + |b|)
  {
    assert dst[n + |b|..] == Zeros(|src| - n - |b|);
    assert src[..n + |b|] == src[..n] + b;
  }

  /** A hole left alone is copied, for the target starts out as zeros. */
  lemma SkipHole(src: Source, dst: Bytes, n: nat, to: nat)
    requires src.Valid() && CopiedUpTo(src.content, dst, n) && n <= to <= |src.content|
    requires forall i: nat :: n <= i < to ==> !src.data(i)
    ensures CopiedUpTo(src.content, dst, to)
  {
    var b := src.content;
    assert b[n..to] == Zeros(to - n);
    assert Zeros(|b| - n) == Zeros(to - n) + Zeros(|b| - to);
    assert b[..to] == b[..n] + b[n..to];
  }

  ghost predicate Failed(src: Source, dst: Target)
    reads src, dst
  {
    src.failed || dst.failed
  }

  /** Copy the stretch that ends at `end`, in reads of any size. */
  method CopyExtent(src: Source, dst: Target, from: nat, end: nat) returns (r: Result<Unit>)
    requires from <= end <= |src.content| && src.offset == dst.offset == from
    requires CopiedUpTo(src.content, dst.content, from)
    modifies src`offset, src`failed, dst
    ensures Failed(src, dst) <==> old(Failed(src, dst)) || r.Err?
    ensures r.Ok? ==> CopiedUpTo(src.content, dst.content, end)
    ensures r.Ok? ==> forall i: nat :: dst.written(i) <==> old(dst.written)(i) || from <= i < end
  {
    var remaining := end - from;
    while remaining > 0
      invariant 0 <= remaining <= end - from && src.offset == dst.offset == end - remaining
      invariant CopiedUpTo(src.content, dst.content, end - remaining) && Failed(src, dst) == old(Failed(src, dst))
      invariant forall i: nat :: dst.written(i) <==> old(dst.written)(i) || from <= i < end - remaining
    {
      var at := end - remaining;
      var n := Min(remaining, BUFFER_LEN);
      var read := src.Read(n);
      if read.Err? {
        return Err(read.error);
      }
      if read.value == [] {
        break;
      }
      CopyMore(src.content, dst.content, at, read.value);
      var wrote := dst.WriteAll(read.value);
      if wrote.Err? {
        return wrote;
      }
      remaining := remaining - |read.value|;
    }
    r := Ok(Unit);
  }

  /** `io::copy` from where both files stand to the end of the source. */
  method CopyRest(src: Source, dst: Target, from: nat) returns (r: Result<Unit>)
    requires from <= |src.content| && src.offset == dst.offset == from
    requires CopiedUpTo(src.content, dst.content, from)
    modifies src`offset, src`failed, dst
    ensures Failed(src, dst) <==> old(Failed(src, dst)) || r.Err?
    ensures r.Ok? ==> CopiedUpTo(src.content, dst.content, |src.content|)
    ensures r.Ok? ==> forall i: nat :: dst.written(i) <==> old(dst.written)(i) || from <= i < |src.content|
  {
    var at := from;
    while true
      invariant from <= at <= |src.content| && src.offset == dst.offset == at
      invariant CopiedUpTo(src.content, dst.content, at) && Failed(src, dst) == old(Failed(src, dst))
      invariant forall i: nat :: dst.written(i) <==> old(dst.written)(i) || from <= i < at
      decreases |src.content| - at
    {
      var read := src.Read(COPY_BUFFER_LEN);
      if read.Err? {
        return Err(read.error);
      }
      if read.value == [] {
        return Ok(Unit);
      }
      CopyMore(src.content, dst.content, at, read.value);
      var wrote := dst.WriteAll(read.value);
      if wrote.Err? {
        return wrote;
      }
      at := at + |read.value|;
    }
  }

  /** What a hole-preserving copy has written by the time it has dealt with the first `n` bytes. */
  ghost predicate WroteData(src: Source, dst: Target, n: nat)
    reads dst
  {
    forall i: nat :: dst.written(i) <==> i < n && src.data(i)
  }

  /**
   A copy that reports success is byte for byte the source, whatever the layout of data and holes, however
   short the reads, and at whatever point the kernel stops telling data from holes. What was written,
   rather than left a hole, is exactly the data, and everything from the point where SEEK_DATA or
   SEEK_HOLE first failed. It fails exactly if resizing, another seek, a read or a write failed: failing to
   find out about holes is no reason to.
   */
  method CopySeekHole(src: Source, dst: Target) returns (r: Result<Unit>)
    requires src.Valid() && src.gaveUp == None && !Failed(src, dst)
    requires dst.content == [] && forall i :: !dst.written(i)
    modifies src`offset, src`gaveUp, src`failed, dst
    ensures r.Err? <==> Failed(src, dst)
    ensures r.Ok? ==> dst.content == src.content
    ensures r.Ok? ==> forall i: nat :: dst.written(i) <==>
      i < |src.content| && (src.data(i) || (src.gaveUp.Some? && src.gaveUp.value <= i))
  {
    var len := |src.content|;
    var sized := dst.SetLen(len);
    if sized.Err? {
      return sized;
    }
    var pos := 0;
    assert CopiedUpTo(src.content, dst.content, 0);
    while true
      invariant 0 <= pos <= len && CopiedUpTo(src.content, dst.content, pos) && !Failed(src, dst)
      invariant src.gaveUp.None? ==> WroteData(src, dst, pos)
      invariant src.gaveUp.Some? ==> pos == len && forall i: nat :: dst.written(i) <==>
        i < len && (src.data(i) || src.gaveUp.value <= i)
      decreases len - pos
    {
      if pos >= len {
        break;
      }
      var data := src.SeekData(pos);
      if data.Err? {
        r := DenseFallback(src, dst, pos);
        return r;
      }
      if data.value >= len {
        SkipHole(src, dst.content, pos, len);
        pos := len;
        break;
      }
      SkipHole(src, dst.content, pos, data.value);
      var found := src.SeekHole(data.value);
      var hole := Min(if found.Ok? then found.value else len, len);
      var s := src.Seek(data.value);
      if s.Err? {
        return s;
      }
      var d := dst.Seek(data.value);
      if d.Err? {
        return d;
      }
      var copied := CopyExtent(src, dst, data.value, hole);
      if copied.Err? {
        return copied;
      }
      pos := hole;
      if pos == data.value {
        // An empty extent: the kernel says a hole begins right here, so this byte is a zero.
        SkipHole(src, dst.content, pos, pos + 1);
        pos := pos + 1;
      }
    }
    assert src.content[..len] == src.content && Zeros(0) == [];
    r := Ok(Unit);
  }

  /** Copy everything from `pos` on, holes and all. */
  method DenseFallback(src: Source, dst: Target, pos: nat) returns (r: Result<Unit>)
    requires pos <= |src.content| && CopiedUpTo(src.content, dst.content, pos)
    modifies src`offset, src`failed, dst
    ensures Failed(src, dst) <==> old(Failed(src, dst)) || r.Err?
    ensures r.Ok? ==> dst.content == src.content
    ensures r.Ok? ==> forall i: nat :: dst.written(i) <==> old(dst.written)(i) || pos <= i < |src.content|
  {
    var s := src.Seek(pos);
    if s.Err? {
      return s;
    }
    var d := dst.Seek(pos);
    if d.Err? {
      return d;
    }
    r := CopyRest(src, dst, pos);
    assert src.content[..|src.content|] == src.content && Zeros(0) == [];
  }
}
