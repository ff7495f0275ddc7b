/**
 * The file system and the byte vectors the file schedulers work on, as the
 * schedulers use them through `std::fstream`, `std::filesystem` and
 * `std::vector<byte>`: a map from path to file contents, and a byte vector
 * object that tasks refer to.  Only regular files are represented.
 */
module FileStore {
  import opened Size

  /** `tools::file::byte` (`char`), as an 8-bit value. */
  type Byte = U8
  type Path = string

  /** A block of a buffer: `size` bytes from `offset` on. */
  datatype Chunk = Chunk(offset: nat, size: nat)

  function Max(a: nat, b: nat): nat { if a >= b then a else b }
  function Min(a: nat, b: nat): nat { if a <= b then a else b }

  /** `n` zero bytes: what `resize` appends and what a write past the end leaves in the gap. */
  function ZeroBytes(n: nat): (r: seq<Byte>)
    ensures |r| == n && forall i :: 0 <= i < n ==> r[i] == 0
  {
    seq(n, _ => 0)
  }

  /**
   * The file after `seekp(offset)` and `write(bytes)`: the bytes replace
   * the ones at `offset`, the file grows as needed, and a gap between the old
   * end and `offset` reads as zero bytes.
   */
  function Overwrite(file: seq<Byte>, offset: nat, bytes: seq<Byte>): (r: seq<Byte>)
    ensures |r| == Max(|file|, offset + |bytes|)
    ensures forall i :: 0 <= i < |r| ==>
              r[i] == if offset <= i < offset + |bytes| then bytes[i - offset]
                      else if i < |file| then file[i] else 0
  {
    var padded := if offset <= |file| then file else file + ZeroBytes(offset - |file|);
    var tail := if offset + |bytes| < |padded| then padded[offset + |bytes|..] else [];
    padded[..offset] + bytes + tail
  }

  /** Writing at the end of a file appends. */
  lemma OverwriteAtEnd(file: seq<Byte>, bytes: seq<Byte>)
    ensures Overwrite(file, |file|, bytes) == file + bytes
  {
    var r := Overwrite(file, |file|, bytes);
    forall i | 0 <= i < |r|
      ensures r[i] == (file + bytes)[i]
    {
    }
  }

  /** Writing `a` at the start and then `b` right after it is writing `a + b` at the start. */
  lemma OverwriteExtend(file: seq<Byte>, a: seq<Byte>, b: seq<Byte>)
    ensures Overwrite(Overwrite(file, 0, a), |a|, b) == Overwrite(file, 0, a + b)
  {
    var x := Overwrite(Overwrite(file, 0, a), |a|, b);
    var y := Overwrite(file, 0, a + b);
    assert |x| == |y|;
    forall i | 0 <= i < |x|
      ensures x[i] == y[i]
    {
    }
  }

  /** Writing at the start replaces the file's first bytes and keeps the rest: a file no longer than the bytes becomes them. */
  lemma OverwriteStart(file: seq<Byte>, bytes: seq<Byte>)
    ensures |file| <= |bytes| ==> Overwrite(file, 0, bytes) == bytes
    ensures |file| > |bytes| ==> Overwrite(file, 0, bytes) == bytes + file[|bytes|..]
  {
    var r := Overwrite(file, 0, bytes);
    var y := if |file| <= |bytes| then bytes else bytes + file[|bytes|..];
    assert |r| == |y|;
    forall i | 0 <= i < |r|
      ensures r[i] == y[i]
    {
    }
  }

  /** Writes to disjoint ranges give the same file in either order, so the order the workers run them in does not matter. */
  lemma OverwritesCommute(file: seq<Byte>, o1: nat, b1: seq<Byte>, o2: nat, b2: seq<Byte>)
    requires o1 + |b1| <= o2 || o2 + |b2| <= o1
    ensures Overwrite(Overwrite(file, o1, b1), o2, b2) == Overwrite(Overwrite(file, o2, b2), o1, b1)
  {
    var x := Overwrite(Overwrite(file, o1, b1), o2, b2);
    var y := Overwrite(Overwrite(file, o2, b2), o1, b1);
    assert |x| == |y|;
    forall i | 0 <= i < |x|
      ensures x[i] == y[i]
    {
    }
  }

  /** The bytes `read(data, size)` after `seekg(offset)` stores: as many as the file still has, up to `size`. */
  function Available(file: seq<Byte>, offset: nat, size: nat): (r: seq<Byte>)
    ensures |r| <= size
    ensures offset + size <= |file| ==> r == file[offset..offset + size]
    ensures r == file[Min(offset, |file|)..Min(offset + size, |file|)]
  {
    if offset >= |file| then [] else file[offset..Min(offset + size, |file|)]
  }

  /** The vector after `src` is copied over its elements from `at` on. */
  function CopyInto(buffer: seq<Byte>, at: nat, src: seq<Byte>): (r: seq<Byte>)
    requires at + |src| <= |buffer|
    ensures |r| == |buffer|
    ensures forall i :: 0 <= i < |r| ==> r[i] == if at <= i < at + |src| then src[i - at] else buffer[i]
  {
    buffer[..at] + src + buffer[at + |src|..]
  }

  /** A directory tree of regular files. */
  class Disk {
    var files: map<Path, seq<Byte>>

    constructor (initial: map<Path, seq<Byte>>)
      ensures files == initial
    {
      files := initial;
    }
  }

  /** A `std::vector<byte>` that tasks refer to. */
  class ByteBuffer {
    var bytes: seq<Byte>

    constructor (initial: seq<Byte>)
      ensures bytes == initial
    {
      bytes := initial;
    }

    /** `resize(n)`: cut to `n`, or extended with zero bytes. */
    method Resize(n: nat)
      modifies this
      ensures |bytes| == n
      ensures bytes == if n <= |old(bytes)| then old(bytes)[..n] else old(bytes) + ZeroBytes(n - |old(bytes)|)
    {
      if n <= |bytes| {
        bytes := bytes[..n];
      } else {
        bytes := bytes + ZeroBytes(n - |bytes|);
      }
    }
  }
}
