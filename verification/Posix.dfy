/**
 An open file as POSIX.1-2017 describes it (XSH, lseek(), read(), write()): a byte sequence and an
 offset, where a write past the end fills the gap with zeros.
 */
module Posix {
  type Byte = b: int | 0 <= b < 256

  datatype File = File(contents: seq<Byte>, offset: nat)

  function Zeros(n: nat): seq<Byte> { seq(n, _ => 0) }

  function PadTo(s: seq<Byte>, n: nat): seq<Byte> {
    if |s| >= n then s else s + Zeros(n - |s|)
  }

  /** `s` after `data` is written at `pos`; writing nothing changes nothing. */
  function Overlay(s: seq<Byte>, pos: nat, data: seq<Byte>): (r: seq<Byte>)
    ensures |data| > 0 ==> |r| == if |s| > pos + |data| then |s| else pos + |data|
    ensures |data| == 0 ==> r == s
  {
    if data == [] then s
    else PadTo(s, pos)[..pos] + data + (if |s| > pos + |data| then s[pos + |data|..] else [])
  }

  lemma OverlayNothing(s: seq<Byte>, pos: nat)
    ensures Overlay(s, pos, []) == s
  {
  }

  /** Byte by byte: the data where it was written, the old bytes elsewhere, zeros in between. */
  lemma OverlayAt(s: seq<Byte>, pos: nat, data: seq<Byte>, i: nat)
    requires data != [] && i < |Overlay(s, pos, data)|
    ensures Overlay(s, pos, data)[i]
         == if pos <= i < pos + |data| then data[i - pos] else if i < |s| then s[i] else 0
  {
  }

  /** Two writes in a row are one write of both pieces. */
  lemma OverlayTwice(s: seq<Byte>, pos: nat, a: seq<Byte>, b: seq<Byte>)
    ensures Overlay(Overlay(s, pos, a), pos + |a|, b) == Overlay(s, pos, a + b)
  {
    if a == [] {
      assert a + b == b;
    } else if b == [] {
      assert a + b == a;
    } else {
      var l, r := Overlay(Overlay(s, pos, a), pos + |a|, b), Overlay(s, pos, a + b);
      forall i: nat | i < |l| ensures l[i] == r[i] {
        OverlayAt(Overlay(s, pos, a), pos + |a|, b, i);
        if i < |Overlay(s, pos, a)| { OverlayAt(s, pos, a, i); }
        OverlayAt(s, pos, a + b, i);
      }
    }
  }

  /** Writing back what is already there changes nothing. */
  lemma OverlaySame(s: seq<Byte>, pos: nat, data: seq<Byte>)
    requires pos + |data| <= |s| && s[pos..pos + |data|] == data
    ensures Overlay(s, pos, data) == s
  {
    if data != [] {
      forall i: nat | i < |s| ensures Overlay(s, pos, data)[i] == s[i] {
        OverlayAt(s, pos, data, i);
        if pos <= i < pos + |data| { assert s[pos..pos + |data|][i - pos] == s[i]; }
      }
    }
  }

  // ---- The calls, as fileio/impl/naive.c:76-98 passes them on ----

  function ReadAt(s: seq<Byte>, pos: nat, n: nat): (r: seq<Byte>)
    ensures |r| <= n
  {
    if pos >= |s| then [] else if pos + n <= |s| then s[pos..pos + n] else s[pos..]
  }

  datatype Op =
    | Seek(pos: int)
    | Read(n: nat)
    | Readc
    | Write(data: seq<Byte>)
    | Writec(ch: int)

  datatype Answer = Number(value: int) | Bytes(bytes: seq<Byte>)

  function Apply(f: File, op: Op): (File, Answer) {
    match op
    case Seek(pos) => if pos < 0 then (f, Number(-1)) else (File(f.contents, pos), Number(pos))
    case Read(n) =>
      var r := ReadAt(f.contents, f.offset, n);
      (File(f.contents, f.offset + |r|), Bytes(r))
    case Readc =>
      var r := ReadAt(f.contents, f.offset, 1);
      (File(f.contents, f.offset + |r|), Number(if |r| == 1 then r[0] else -1))
    case Write(data) =>
      (File(Overlay(f.contents, f.offset, data), f.offset + |data|), Number(|data|))
    case Writec(ch) =>
      (File(Overlay(f.contents, f.offset, [ch % 256]), f.offset + 1), Number(ch))
  }

  /** The bytes read are those that the file has there, as many as asked for and left. */
  lemma ReadExact(s: seq<Byte>, pos: nat, n: nat)
    ensures var r := ReadAt(s, pos, n);
            && |r| == (if pos >= |s| then 0 else if n <= |s| - pos then n else |s| - pos)
            && forall i: nat :: i < |r| ==> r[i] == s[pos + i]
  {
  }

  /** The answers, and where the offset goes. */
  lemma AnswerExact(f: File, op: Op)
    ensures var (f', a) := Apply(f, op);
            && (op.Seek? && op.pos < 0 ==> f' == f && a == Number(-1))
            && (op.Seek? && op.pos >= 0 ==> f'.contents == f.contents && a == Number(f'.offset) && f'.offset == op.pos)
            && (op.Read? ==>
                  && f'.contents == f.contents && a.Bytes? && f'.offset == f.offset + |a.bytes|
                  && (a.bytes == [] <==> op.n == 0 || f.offset >= |f.contents|))
            && (op.Readc? ==>
                  && f'.contents == f.contents && (a == Number(-1) <==> f'.offset == f.offset)
                  && (f'.offset == f.offset <==> f.offset >= |f.contents|)
                  && (f.offset < |f.contents| ==> f'.offset == f.offset + 1 && a == Number(f.contents[f.offset])))
            && (op.Write? ==> a == Number(|op.data|) && f'.offset == f.offset + |op.data|)
            && (op.Writec? ==> a == Number(op.ch) && f'.offset == f.offset + 1)
  {
    match op
    case Read(n) => ReadExact(f.contents, f.offset, n);
    case Readc => ReadExact(f.contents, f.offset, 1);
    case _ =>
  }

  function Final(f: File, ops: seq<Op>): File
    decreases |ops|
  {
    if ops == [] then f else Apply(Final(f, ops[..|ops| - 1]), ops[|ops| - 1]).0
  }

  function Answers(f: File, ops: seq<Op>): seq<Answer>
    decreases |ops|
  {
    if ops == [] then []
    else Answers(f, ops[..|ops| - 1]) + [Apply(Final(f, ops[..|ops| - 1]), ops[|ops| - 1]).1]
  }

  // ---- The kernel's side ----

  /** A file descriptor.  `Write` may write less than it was asked to; `Read` reads all there is. */
  class Descriptor {
    var contents: seq<Byte>
    var offset: nat

    constructor (contents: seq<Byte>)
      ensures this.contents == contents && offset == 0
    {
      this.contents, offset := contents, 0;
    }

    method Lseek(pos: nat)
      modifies this
      ensures offset == pos && contents == old(contents)
    {
      offset := pos;
    }

    method Read(n: nat) returns (r: seq<Byte>)
      modifies this
      ensures contents == old(contents) && r == ReadAt(contents, old(offset), n) && offset == old(offset) + |r|
    {
      r := ReadAt(contents, offset, n);
      offset := offset + |r|;
    }

    method Write(data: seq<Byte>) returns (n: nat)
      modifies this
      ensures n <= |data| && (data != [] ==> n > 0)
      ensures contents == Overlay(old(contents), old(offset), data[..n]) && offset == old(offset) + n
    {
      n := 0;
      if data != [] { n :| 0 < n <= |data|; }
      contents := Overlay(contents, offset, data[..n]);
      offset := offset + n;
    }
  }
}
