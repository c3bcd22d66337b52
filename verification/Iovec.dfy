/**
  Scatter/gather in execs/wedge/fins_stack_wedge.c: fins_sendmsg writes a request from a list of
  buffers, fins_recvmsg spreads a reply's data over one.
 */
module Iovec {
  import opened Prelude

  /** struct iovec on the sending side: a NULL base with a length, or the bytes there. */
  datatype Source = Null(len: nat) | At(bytes: seq<Byte>)

  function LenOf(v: Source): nat {
    match v
    case Null(len) => len
    case At(bytes) => |bytes|
  }

  function BytesOf(v: Source): seq<Byte> {
    match v
    case Null(_) => []
    case At(bytes) => bytes
  }

  function Total(vs: seq<Source>): nat {
    if vs == [] then 0 else Total(vs[..|vs| - 1]) + LenOf(vs[|vs| - 1])
  }

  function Gathered(vs: seq<Source>): seq<Byte> {
    if vs == [] then [] else Gathered(vs[..|vs| - 1]) + BytesOf(vs[|vs| - 1])
  }

  predicate Bad(v: Source) {
    v.Null? && v.len > 0
  }

  /** A 32-bit value in memory, low byte first. */
  function Word(n: int): (w: seq<Byte>)
    ensures |w| == 4
  {
    var m := n % U32;
    [m % 256, m / 256 % 256, m / 65536 % 256, m / 16777216 % 256]
  }

  datatype Request = Request(buf: seq<Byte>) | BufferError | WriteError

  lemma {:induction false} GatheredLength(vs: seq<Source>)
    requires forall i :: 0 <= i < |vs| ==> !Bad(vs[i])
    ensures |Gathered(vs)| == Total(vs)
  {
    if vs != [] { GatheredLength(vs[..|vs| - 1]); }
  }

  /** Everything before the data. */
  function Front(hdr: seq<Byte>, skFlags: nat, nameLen: int, name: seq<Byte>, flags: nat, control: seq<Byte>,
                 dataLen: nat): (f: seq<Byte>)
    ensures |f| == |hdr| + 20 + |name| + |control|
  {
    hdr + Word(skFlags) + Word(nameLen) + name + Word(flags) + Word(|control|) + control + Word(dataLen)
  }

  /** The loop that adds up the lengths, in 32 bits. */
  method DataLength(vs: seq<Source>) returns (dataLen: nat)
    ensures dataLen == Total(vs) % U32
  {
    dataLen := 0;
    for i := 0 to |vs|
      invariant dataLen == Total(vs[..i]) % U32
    {
      assert vs[..i + 1][..i] == vs[..i];
      dataLen := (dataLen + LenOf(vs[i])) % U32;
    }
    assert vs[..|vs|] == vs;
  }

  /** data_len and buf_len; buf_len is the true size exactly when that fits 32 bits. */
  method Sizes32(hdrLen: nat, nameLen: int, controlLen: nat, vs: seq<Source>) returns (dataLen: nat, bufLen: nat)
    ensures var size := hdrLen + 20 + (if nameLen > 0 then nameLen else 0) + controlLen + Total(vs);
      (bufLen == size <==> size < U32) && (size < U32 ==> dataLen == Total(vs))
  {
    dataLen := DataLength(vs);
    bufLen := (hdrLen + 4 + (if nameLen > 0 then nameLen else 0) + 4 * 4 + controlLen + dataLen) % U32;
  }

  /** The loop that copies the data; None for a NULL buffer with a length. */
  method CopyData(front: seq<Byte>, vs: seq<Source>) returns (r: Option<seq<Byte>>)
    ensures r.None? <==> exists i :: 0 <= i < |vs| && Bad(vs[i])
    ensures r.Some? ==> r.value == front + Gathered(vs) && |r.value| == |front| + Total(vs)
  {
    var buf := front;
    for i := 0 to |vs|
      invariant forall k :: 0 <= k < i ==> !Bad(vs[k])
      invariant buf == front + Gathered(vs[..i])
    {
      assert vs[..i + 1][..i] == vs[..i];
      match vs[i] {
        case Null(len) =>
          if len > 0 {
            assert Bad(vs[i]);
            return None;
          }
        case At(bytes) =>
          buf := buf + bytes;
      }
    }
    assert vs[..|vs|] == vs;
    GatheredLength(vs);
    return Some(buf);
  }

  /**
    The building of the request in fins_sendmsg. It is refused for a NULL buffer with a length; otherwise
    the number of bytes written is the size computed beforehand, so that the write error does not occur,
    exactly when the true size fits 32 bits.
   */
  method BuildSendmsg(hdr: seq<Byte>, skFlags: nat, nameLen: int, name: seq<Byte>, flags: nat, control: seq<Byte>,
                      vs: seq<Source>) returns (r: Request)
    requires |name| == (if nameLen > 0 then nameLen else 0)
    ensures r.BufferError? <==> exists i :: 0 <= i < |vs| && Bad(vs[i])
    ensures r.WriteError? <==>
      (forall i :: 0 <= i < |vs| ==> !Bad(vs[i])) && |hdr| + 20 + |name| + |control| + Total(vs) >= U32
    ensures r.Request? ==> r.buf == Front(hdr, skFlags, nameLen, name, flags, control, Total(vs)) + Gathered(vs)
  {
    var dataLen, bufLen := Sizes32(|hdr|, nameLen, |control|, vs);
    var front := Front(hdr, skFlags, nameLen, name, flags, control, dataLen);
    var buf := CopyData(front, vs);
    if buf.None? { return BufferError; }
    if |buf.value| != bufLen { return WriteError; }
    return Request(buf.value);
  }

  // ----- scatter -----

  /** The pieces of data that go to buffers of these sizes, in order; later buffers may get less or nothing. */
  function Pieces(data: seq<Byte>, sizes: seq<nat>): (ps: seq<seq<Byte>>)
    ensures |ps| == |sizes|
  {
    if sizes == [] then []
    else
      var n := if |data| > sizes[0] then sizes[0] else |data|;
      [data[..n]] + Pieces(data[n..], sizes[1..])
  }

  function Join(ps: seq<seq<Byte>>): seq<Byte> {
    if ps == [] then [] else ps[0] + Join(ps[1..])
  }

  function Sum(sizes: seq<nat>): nat {
    if sizes == [] then 0 else sizes[0] + Sum(sizes[1..])
  }

  /** Together the pieces are the longest prefix of the data that fits. */
  lemma {:induction false} PiecesArePrefix(data: seq<Byte>, sizes: seq<nat>)
    ensures Join(Pieces(data, sizes)) == data[..if |data| < Sum(sizes) then |data| else Sum(sizes)]
  {
    if sizes != [] {
      var n := if |data| > sizes[0] then sizes[0] else |data|;
      PiecesArePrefix(data[n..], sizes[1..]);
    }
  }

  function Sizes(ps: seq<seq<Byte>>): seq<nat> {
    seq(|ps|, i requires 0 <= i < |ps| => |ps[i]|)
  }

  /** Scattering what was gathered into buffers of the same sizes gives back the original buffers. */
  lemma {:induction false} ScatterUndoesGather(ps: seq<seq<Byte>>)
    ensures Pieces(Join(ps), Sizes(ps)) == ps
  {
    if ps != [] {
      ScatterUndoesGather(ps[1..]);
      var data := Join(ps);
      assert data[..|ps[0]|] == ps[0] && data[|ps[0]|..] == Join(ps[1..]);
      assert Sizes(ps)[1..] == Sizes(ps[1..]);
    }
  }

  lemma {:induction false} GatheredIsJoin(ps: seq<seq<Byte>>)
    ensures Gathered(seq(|ps|, i requires 0 <= i < |ps| => At(ps[i]))) == Join(ps)
  {
    if ps != [] {
      var n := |ps| - 1;
      var vs := seq(|ps|, i requires 0 <= i < |ps| => At(ps[i]));
      GatheredIsJoin(ps[..n]);
      assert vs[..n] == seq(n, i requires 0 <= i < n => At(ps[..n][i]));
      JoinLast(ps);
    }
  }

  lemma {:induction false} JoinLast(ps: seq<seq<Byte>>)
    requires ps != []
    ensures Join(ps) == Join(ps[..|ps| - 1]) + ps[|ps| - 1]
  {
    if |ps| > 1 {
      JoinLast(ps[1..]);
      assert ps[1..][..|ps| - 2] == ps[..|ps| - 1][1..];
    }
  }

  /** The user buffers as they end up: each starts with its piece and is otherwise as it was. */
  ghost predicate Filled(iovs: seq<array<Byte>>, ps: seq<seq<Byte>>, was: seq<seq<Byte>>)
    reads iovs
  {
    && |ps| == |iovs| == |was|
    && forall i :: 0 <= i < |iovs| ==>
         |ps[i]| <= iovs[i].Length == |was[i]| && iovs[i][..] == ps[i] + was[i][|ps[i]|..]
  }

  /** copy_to_user of the first n bytes of src */
  method CopyToUser(dst: array<Byte>, src: seq<Byte>, n: nat)
    requires n <= dst.Length && n <= |src|
    modifies dst
    ensures dst[..n] == src[..n] && dst[n..] == old(dst[n..])
  {
    for i := 0 to n
      invariant dst[..i] == src[..i] && dst[i..] == old(dst[i..])
    {
      dst[i] := src[i];
    }
  }

  ghost function Lengths(iovs: seq<array<Byte>>): seq<nat> {
    seq(|iovs|, i requires 0 <= i < |iovs| => iovs[i].Length)
  }

  ghost function Memory(iovs: seq<array<Byte>>): (m: seq<seq<Byte>>)
    reads iovs
    ensures |m| == |iovs| && forall i :: 0 <= i < |m| ==> m[i] == iovs[i][..]
  {
    seq(|iovs|, i requires 0 <= i < |iovs| reads iovs => iovs[i][..])
  }

  /** How many bytes the first i pieces hold. */
  ghost function Before(ps: seq<seq<Byte>>, i: nat): nat
    requires i <= |ps|
  {
    if i == 0 then 0 else |ps[0]| + Before(ps[1..], i - 1)
  }

  /** What is left of the data for buffer i, and what it gets of it. */
  lemma {:induction false} PiecesSplit(data: seq<Byte>, sizes: seq<nat>, i: nat)
    requires i < |sizes|
    ensures var ps := Pieces(data, sizes); var used := Before(ps, i);
      && used <= |data|
      && var n := if |data| - used > sizes[i] then sizes[i] else |data| - used;
      && ps[i] == data[used..used + n]
      && Before(ps, i + 1) == used + n
  {
    var n := if |data| > sizes[0] then sizes[0] else |data|;
    assert Pieces(data, sizes)[1..] == Pieces(data[n..], sizes[1..]);
    if i == 0 {
      assert Before(Pieces(data, sizes), 1) == n + Before(Pieces(data, sizes)[1..], 0);
    } else {
      PiecesSplit(data[n..], sizes[1..], i - 1);
      var ps := Pieces(data[n..], sizes[1..]);
      SliceOfRest(data, n, Before(ps, i - 1), Before(ps, i));
    }
  }

  lemma SliceOfRest(data: seq<Byte>, n: nat, from: nat, to: nat)
    requires n <= |data| && from <= to <= |data| - n
    ensures data[n..][from..to] == data[n + from..n + to]
  {
  }

  lemma {:induction false} AllUsed(data: seq<Byte>, sizes: seq<nat>)
    ensures Before(Pieces(data, sizes), |sizes|) == if |data| < Sum(sizes) then |data| else Sum(sizes)
  {
    if sizes != [] {
      var n := if |data| > sizes[0] then sizes[0] else |data|;
      AllUsed(data[n..], sizes[1..]);
      assert Pieces(data, sizes)[1..] == Pieces(data[n..], sizes[1..]);
    }
  }

  /** Halfway through: the first i buffers have their pieces, the others are as they were. */
  ghost predicate FilledUpTo(iovs: seq<array<Byte>>, ps: seq<seq<Byte>>, was: seq<seq<Byte>>, i: nat)
    reads iovs
  {
    && |ps| == |iovs| == |was| >= i
    && (forall k :: 0 <= k < i ==>
          |ps[k]| <= iovs[k].Length == |was[k]| && iovs[k][..] == ps[k] + was[k][|ps[k]|..])
    && (forall k :: i <= k < |iovs| ==> iovs[k][..] == was[k])
  }

  lemma FilledAll(iovs: seq<array<Byte>>, ps: seq<seq<Byte>>, was: seq<seq<Byte>>, i: nat)
    requires FilledUpTo(iovs, ps, was, i) && forall k :: i <= k < |ps| ==> ps[k] == []
    ensures Filled(iovs, ps, was)
  {
    forall k | i <= k < |iovs|
      ensures |ps[k]| <= iovs[k].Length == |was[k]| && iovs[k][..] == ps[k] + was[k][|ps[k]|..]
    {
      assert [] + was[k][0..] == was[k];
    }
  }

  /** One buffer gets its piece. */
  method CopyPiece(iov: array<Byte>, data: seq<Byte>, used: nat, n: nat)
    requires n <= iov.Length && used + n <= |data|
    modifies iov
    ensures iov[..] == data[used..used + n] + old(iov[..])[n..]
  {
    CopyToUser(iov, data[used..], n);
    assert iov[..] == iov[..n] + iov[n..];
    assert data[used..][..n] == data[used..used + n];
  }

  method FillNext(iovs: seq<array<Byte>>, i: nat, data: seq<Byte>, used: nat, n: nat,
                  ghost ps: seq<seq<Byte>>, ghost was: seq<seq<Byte>>)
    requires FilledUpTo(iovs, ps, was, i) && i < |iovs|
    requires forall k :: 0 <= k < |iovs| && k != i ==> iovs[k] != iovs[i]
    requires n <= iovs[i].Length && used + n <= |data| && ps[i] == data[used..used + n]
    modifies iovs[i]
    ensures FilledUpTo(iovs, ps, was, i + 1)
  {
    CopyPiece(iovs[i], data, used, n);
  }

  /** The piece for buffer i lies between two cuts and is what fits of what is left. */
  ghost predicate CutAt(data: seq<Byte>, iovs: seq<array<Byte>>, ps: seq<seq<Byte>>, at: seq<nat>, i: nat)
    requires i < |iovs| == |ps| == |at| - 1
  {
    && at[i + 1] == at[i] + (if |data| - at[i] > iovs[i].Length then iovs[i].Length else |data| - at[i])
    && at[i] <= at[i + 1] <= |data|
    && ps[i] == data[at[i]..at[i + 1]]
  }

  ghost predicate Cut(data: seq<Byte>, iovs: seq<array<Byte>>, ps: seq<seq<Byte>>, at: seq<nat>) {
    && |at| == |iovs| + 1 == |ps| + 1 && at[0] == 0
    && forall i :: 0 <= i < |iovs| ==> CutAt(data, iovs, ps, at, i)
  }

  lemma PiecesCut(data: seq<Byte>, iovs: seq<array<Byte>>, at: seq<nat>)
    requires |at| == |iovs| + 1
    requires forall i :: 0 <= i < |at| ==> at[i] == Before(Pieces(data, Lengths(iovs)), i)
    ensures Cut(data, iovs, Pieces(data, Lengths(iovs)), at)
  {
    forall i | 0 <= i < |iovs| ensures CutAt(data, iovs, Pieces(data, Lengths(iovs)), at, i) {
      PiecesSplit(data, Lengths(iovs), i);
    }
  }

  /** The loop of fins_recvmsg: it stops at buffer `next`, `used` bytes along the reply. */
  method FillBuffers(data: seq<Byte>, iovs: seq<array<Byte>>,
                     ghost ps: seq<seq<Byte>>, ghost at: seq<nat>, ghost was: seq<seq<Byte>>)
    returns (next: nat, used: nat)
    requires forall i, j :: 0 <= i < j < |iovs| ==> iovs[i] != iovs[j]
    requires Cut(data, iovs, ps, at) && FilledUpTo(iovs, ps, was, 0)
    modifies iovs
    ensures FilledUpTo(iovs, ps, was, next) && used == at[next]
    ensures used == |data| || next == |iovs|
  {
    used := 0;
    next := 0;
    var left := |data|;
    while left > 0 && next < |iovs|
      invariant next <= |iovs| && used + left == |data| && left >= 0 && used == at[next]
      invariant FilledUpTo(iovs, ps, was, next)
      decreases |iovs| - next
    {
      var n := if left > iovs[next].Length then iovs[next].Length else left;
      assert CutAt(data, iovs, ps, at, next);
      FillNext(iovs, next, data, used, n, ps, was);
      used := used + n;
      left := left - n;
      next := next + 1;
    }
  }

  /**
    Handing the data to the user. `used` is how far the loop moved along the reply: it skips the data
    exactly when all of it fitted, so only then is the control length that follows read from the right
    place.
   */
  method Scatter(data: seq<Byte>, iovs: seq<array<Byte>>) returns (used: nat)
    requires |data| < 0x8000_0000
    requires forall i, j :: 0 <= i < j < |iovs| ==> iovs[i] != iovs[j]
    modifies iovs
    ensures Filled(iovs, Pieces(data, Lengths(iovs)), old(Memory(iovs)))
    ensures used == if |data| < Sum(Lengths(iovs)) then |data| else Sum(Lengths(iovs))
    ensures used == |data| <==> |data| <= Sum(Lengths(iovs))
  {
    ghost var ps, was := Pieces(data, Lengths(iovs)), Memory(iovs);
    ghost var at := seq(|ps| + 1, i requires 0 <= i <= |ps| => Before(ps, i));
    PiecesCut(data, iovs, at);
    var next;
    next, used := FillBuffers(data, iovs, ps, at, was);
    RestEmpty(data, Lengths(iovs), next);
    FilledAll(iovs, ps, was, next);
    AllUsed(data, Lengths(iovs));
  }

  /** Once the data is used up, or the buffers are, the remaining pieces are empty. */
  lemma {:induction false} RestEmpty(data: seq<Byte>, sizes: seq<nat>, i: nat)
    requires i <= |sizes| && (i == |sizes| || Before(Pieces(data, sizes), i) == |data|)
    ensures forall k :: i <= k < |sizes| ==> Pieces(data, sizes)[k] == []
    ensures Before(Pieces(data, sizes), i) == Before(Pieces(data, sizes), |sizes|)
    decreases |sizes| - i
  {
    if i < |sizes| {
      PiecesSplit(data, sizes, i);
      RestEmpty(data, sizes, i + 1);
    }
  }

  /** One byte too many for the buffers: the loop stops one byte short of the control length. */
  method OneByteTooMany(b: Byte) returns (used: nat)
    ensures used == 1 < |[b, b]|
  {
    var iov := new Byte[1](_ => 0);
    assert Lengths([iov]) == [1];
    assert Sum([1]) == 1;
    used := Scatter([b, b], [iov]);
  }
}
