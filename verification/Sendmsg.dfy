/**
  The two ends of a sendmsg request: fins_sendmsg writes it (execs/wedge/fins_stack_wedge.c), sendmsg_out
  reads it (modules/daemon/daemon_out.c).
 */
module Sendmsg {
  import opened Prelude
  import opened Iovec

  /** What sendmsg_out makes of a message; Outside stands for a read past its end, Misread for bytes left over. */
  datatype Reading =
    | Fields(skFlags: nat, name: seq<Byte>, flags: nat, control: seq<Byte>, data: seq<Byte>)
    | Misread
    | Outside

  /** A 32-bit value at the start of the bytes. */
  function WordAt(s: seq<Byte>): nat
    requires |s| >= 4
  {
    (s[0] as int) + 256 * (s[1] as int) + 65536 * (s[2] as int) + 16777216 * (s[3] as int)
  }

  /** As an int. */
  function Signed(n: nat): int {
    if n < 0x8000_0000 then n else n - U32
  }

  /** The reads of sendmsg_out, one after the other, on what is left of the message. */
  function SendmsgOut(s: seq<Byte>): Reading {
    if |s| < 8 then Outside
    else
      var skFlags, addrLen, rest := WordAt(s), Signed(WordAt(s[4..])), s[8..];
      if !(0 <= addrLen <= |rest|) then Outside else ReadFlags(skFlags, rest[..addrLen], rest[addrLen..])
  }

  function ReadFlags(skFlags: nat, name: seq<Byte>, s: seq<Byte>): Reading {
    if |s| < 8 then Outside
    else
      var flags, controlLen, rest := WordAt(s), WordAt(s[4..]), s[8..];
      if controlLen > |rest| then Outside
      else ReadData(skFlags, name, flags, rest[..controlLen], rest[controlLen..])
  }

  function ReadData(skFlags: nat, name: seq<Byte>, flags: nat, control: seq<Byte>, s: seq<Byte>): Reading {
    if |s| < 4 then Outside
    else
      var dataLen, rest := WordAt(s), s[4..];
      if dataLen > |rest| then Outside
      else if dataLen < |rest| then Misread
      else Fields(skFlags, name, flags, control, rest)
  }

  lemma FourDigits(m: nat)
    requires m < U32
    ensures m == m % 256 + 256 * (m / 256 % 256) + 65536 * (m / 65536 % 256) + 16777216 * (m / 16777216 % 256)
  {
    var a, b, c := m / 256, m / 65536, m / 16777216;
    assert a / 256 == b && b / 256 == c;
    assert m == m % 256 + 256 * a && a == a % 256 + 256 * b && b == b % 256 + 256 * c;
  }

  /** Reading undoes writing. */
  lemma WordIsRead(n: int)
    ensures WordAt(Word(n)) == n % U32
  {
    FourDigits(n % U32);
  }

  lemma WordFirst(w: seq<Byte>, rest: seq<Byte>)
    requires |w| == 4
    ensures WordAt(w + rest) == WordAt(w) && (w + rest)[4..] == rest
  {
  }

  lemma TwoWordsFirst(w: seq<Byte>, w': seq<Byte>, rest: seq<Byte>)
    requires |w| == |w'| == 4
    ensures var s := w + (w' + rest);
      |s| >= 8 && WordAt(s) == WordAt(w) && WordAt(s[4..]) == WordAt(w') && s[8..] == rest
  {
    WordFirst(w, w' + rest);
    WordFirst(w', rest);
  }

  lemma BytesFirst(x: seq<Byte>, rest: seq<Byte>)
    ensures (x + rest)[..|x|] == x && (x + rest)[|x|..] == rest
  {
  }

  lemma DataIsRead(skFlags: nat, name: seq<Byte>, flags: nat, control: seq<Byte>, w: seq<Byte>, data: seq<Byte>)
    requires |w| == 4 && WordAt(w) == |data|
    ensures ReadData(skFlags, name, flags, control, w + data) == Fields(skFlags, name, flags, control, data)
  {
    WordFirst(w, data);
  }

  lemma FlagsAreRead(skFlags: nat, name: seq<Byte>, w: seq<Byte>, w': seq<Byte>, control: seq<Byte>,
                     w'': seq<Byte>, data: seq<Byte>)
    requires |w| == |w'| == |w''| == 4 && WordAt(w') == |control| && WordAt(w'') == |data|
    ensures ReadFlags(skFlags, name, w + (w' + (control + (w'' + data))))
      == Fields(skFlags, name, WordAt(w), control, data)
  {
    TwoWordsFirst(w, w', control + (w'' + data));
    BytesFirst(control, w'' + data);
    DataIsRead(skFlags, name, WordAt(w), control, w'', data);
  }

  /** What sendmsg_out reads of fields laid out one after the other, given the length that stands before the name. */
  lemma NameIsRead(v: seq<Byte>, v': seq<Byte>, name: seq<Byte>, w: seq<Byte>, w': seq<Byte>, control: seq<Byte>,
                   w'': seq<Byte>, data: seq<Byte>)
    requires |v| == |v'| == |w| == |w'| == |w''| == 4 && WordAt(w') == |control| && WordAt(w'') == |data|
    requires Signed(WordAt(v')) == |name| || Signed(WordAt(v')) < 0
    ensures SendmsgOut(v + (v' + (name + (w + (w' + (control + (w'' + data)))))))
         == if Signed(WordAt(v')) < 0 then Outside else Fields(WordAt(v), name, WordAt(w), control, data)
  {
    var tail := w + (w' + (control + (w'' + data)));
    TwoWordsFirst(v, v', name + tail);
    BytesFirst(name, tail);
    FlagsAreRead(WordAt(v), name, w, w', control, w'', data);
  }

  /** Four bytes that denote n modulo 2^32. */
  predicate Denotes(w: seq<Byte>, n: int) {
    |w| == 4 && WordAt(w) == n % U32
  }

  lemma WordDenotes(n: int) returns (w: seq<Byte>)
    ensures w == Word(n) && Denotes(w, n)
    ensures 0 <= n < U32 ==> WordAt(w) == n
    ensures -0x8000_0000 <= n < 0x8000_0000 ==> Signed(WordAt(w)) == n
  {
    w := Word(n);
    WordIsRead(n);
  }

  /** The message after the header, as fins_sendmsg lays it out. */
  lemma Layout(hdr: seq<Byte>, skFlags: nat, nameLen: int, name: seq<Byte>, flags: nat, control: seq<Byte>,
               dataLen: nat, data: seq<Byte>)
    returns (v: seq<Byte>, v': seq<Byte>, w: seq<Byte>, w': seq<Byte>, w'': seq<Byte>)
    requires -0x8000_0000 <= nameLen < 0x8000_0000 && |control| < U32 && dataLen < U32
    ensures Denotes(v, skFlags) && Denotes(w, flags) && |v'| == |w'| == |w''| == 4
    ensures Signed(WordAt(v')) == nameLen && WordAt(w') == |control| && WordAt(w'') == dataLen
    ensures (Front(hdr, skFlags, nameLen, name, flags, control, dataLen) + data)[|hdr|..]
         == v + (v' + (name + (w + (w' + (control + (w'' + data))))))
  {
    v := WordDenotes(skFlags);
    v' := WordDenotes(nameLen);
    w := WordDenotes(flags);
    w' := WordDenotes(|control|);
    w'' := WordDenotes(dataLen);
    Concatenated(hdr, v, v', name, w, w', control, w'', data);
  }

  lemma Concatenated(hdr: seq<Byte>, v: seq<Byte>, v': seq<Byte>, name: seq<Byte>, w: seq<Byte>, w': seq<Byte>,
                     control: seq<Byte>, w'': seq<Byte>, data: seq<Byte>)
    ensures (hdr + v + v' + name + w + w' + control + w'' + data)[|hdr|..]
         == v + (v' + (name + (w + (w' + (control + (w'' + data))))))
  {
  }

  /**
    The daemon reads out of a request exactly what the wedge wrote into it, if and only if the length of the
    name is not negative; with a negative one, which the wedge writes without a name, it reads outside the
    message.
   */
  lemma DaemonReadsWhatWedgeWrote(hdr: seq<Byte>, skFlags: nat, nameLen: int, name: seq<Byte>, flags: nat,
                                  control: seq<Byte>, vs: seq<Source>)
    requires -0x8000_0000 <= nameLen < 0x8000_0000 && |name| == (if nameLen > 0 then nameLen else 0)
    requires forall i :: 0 <= i < |vs| ==> !Bad(vs[i])
    requires |hdr| + 20 + |name| + |control| + Total(vs) < U32
    ensures var request := Front(hdr, skFlags, nameLen, name, flags, control, Total(vs)) + Gathered(vs);
      SendmsgOut(request[|hdr|..])
        == if nameLen >= 0 then Fields(skFlags % U32, name, flags % U32, control, Gathered(vs)) else Outside
  {
    var data := Gathered(vs);
    GatheredLength(vs);
    var v, v', w, w', w'' := Layout(hdr, skFlags, nameLen, name, flags, control, Total(vs), data);
    NameIsRead(v, v', name, w, w', control, w'', data);
  }
}
