/** One extent: a file of at most CAPACITY bytes, read with pread and changed with pwrite and truncate. */
module Extent {
  import opened Wrappers
  import opened Values

  const CAPACITY: nat := 0x10_0000

  function ByteOf(content: seq<byte>, k: nat): byte
  {
    if k < |content| then content[k] else 0
  }

  function Zeros(n: nat): seq<byte>
  {
    seq(n, _ => 0)
  }

  /** pread: short at the end of the file. */
  function PRead(content: seq<byte>, off: nat, n: nat): seq<byte>
  {
    if off >= |content| then [] else content[off..if off + n <= |content| then off + n else |content|]
  }

  /** pwrite: a gap before the written bytes reads as zeros. */
  function PWrite(content: seq<byte>, off: nat, data: seq<byte>): seq<byte>
  {
    if data == [] then content
    else
      var padded := if |content| < off then content + Zeros(off - |content|) else content;
      padded[..off] + data + if off + |data| < |padded| then padded[off + |data|..] else []
  }

  function Truncate(content: seq<byte>, n: nat): seq<byte>
  {
    if n <= |content| then content[..n] else content + Zeros(n - |content|)
  }

  /** The two ways in which a container changes an extent. */
  datatype Edit = Overwrite(off: nat, data: seq<byte>) | SetLength(n: nat)

  /** The capacity checks that Extent::write and Extent::resize make. */
  predicate Fits(e: Edit)
  {
    match e
    case Overwrite(off, data) => off + |data| <= CAPACITY
    case SetLength(n) => 0 < n <= CAPACITY
  }

  predicate Changes(e: Edit)
  {
    e.Overwrite? ==> e.data != []
  }

  function Apply(content: seq<byte>, e: Edit): seq<byte>
  {
    match e
    case Overwrite(off, data) => PWrite(content, off, data)
    case SetLength(n) => Truncate(content, n)
  }

  lemma NothingLeft(e: Edit, content: seq<byte>)
    ensures PartOf(None, e) && Left(content, None) == content
  {
  }

  /** A read gives the bytes that are there, and fewer than asked for at the end. */
  lemma PReadIs(content: seq<byte>, off: nat, n: nat)
    ensures |PRead(content, off, n)|
         == if |content| <= off then 0 else if |content| - off < n then |content| - off else n
    ensures forall k :: 0 <= k < |PRead(content, off, n)| ==> PRead(content, off, n)[k] == content[off + k]
  {
  }

  /** What a failed change left behind: nothing, all of it, or the first bytes of a write. */
  predicate PartOf(left: Option<Edit>, e: Edit)
  {
    || left.None? || left.value == e
    || (e.Overwrite? && left.value.Overwrite? && left.value.off == e.off && left.value.data <= e.data)
  }

  function Left(content: seq<byte>, left: Option<Edit>): seq<byte>
  {
    if left.None? then content else Apply(content, left.value)
  }

  lemma ApplyBytes(content: seq<byte>, e: Edit, k: nat)
    ensures ByteOf(Apply(content, e), k) ==
            match e
            case Overwrite(off, data) => if off <= k < off + |data| then data[k - off] else ByteOf(content, k)
            case SetLength(n) => if k < n then ByteOf(content, k) else 0
  {
  }

  lemma ApplyLength(content: seq<byte>, e: Edit)
    ensures |Apply(content, e)| ==
            match e
            case Overwrite(off, data) =>
              if data != [] && |content| < off + |data| then off + |data| else |content|
            case SetLength(n) => n
    ensures Fits(e) && |content| <= CAPACITY ==> |Apply(content, e)| <= CAPACITY
    ensures Changes(e) && Fits(e) ==> 0 < |Apply(content, e)|
  {
  }

  /** What a read of `n` bytes leaves in its buffer: a short pread is filled up with zeros. */
  function ReadFilled(content: seq<byte>, off: nat, n: nat): (r: seq<byte>)
    ensures |r| == n
    ensures forall k :: 0 <= k < n ==> r[k] == ByteOf(content, off + k)
  {
    var got := PRead(content, off, n);
    got + Zeros(n - |got|)
  }
}
