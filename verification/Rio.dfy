/** The buffered reader of `proxylab/csapp.c` over a descriptor whose reads may be short or interrupted. */
module Rio {
  import opened Words

  const RIO_BUFSIZE: nat := 8192
  const NEWLINE: Byte := 10

  function Min(a: nat, b: nat): nat {
    if a < b then a else b
  }

  /** What one call of `read` does: it is interrupted, or it delivers at most `most` bytes. */
  datatype Outcome = Interrupt | Short(most: nat)

  /** A descriptor: `at` bytes have been read. After the script, reads are full. */
  class Descriptor {
    const bytes: seq<Byte>
    var at: nat
    var script: seq<Outcome>

    constructor (bytes: seq<Byte>, script: seq<Outcome>)
      ensures this.bytes == bytes && this.script == script && at == 0
    {
      this.bytes, this.script, at := bytes, script, 0;
    }

    /** `read(fd, buf, n)`; -1 stands for an interrupted call, 0 for the end of the stream. */
    method Read(buf: array<Byte>, n: nat) returns (r: int)
      requires 0 < n <= buf.Length && at <= |bytes|
      modifies this, buf
      ensures r <= n && (r == 0 ==> old(at) == |bytes|)
      ensures |script| <= |old(script)| && (r < 0 ==> at == old(at) && |script| < |old(script)|)
      ensures r >= 0 ==> at == old(at) + r <= |bytes| && buf[..r] == bytes[old(at)..at]
    {
      var most := n;
      if script != [] {
        var next := script[0];
        script := script[1..];
        if next.Interrupt? {
          return -1;
        }
        most := if next.most == 0 then 1 else next.most;
      }
      r := Min(n, Min(most, |bytes| - at));
      forall k | 0 <= k < r {
        buf[k] := bytes[at + k];
      }
      at := at + r;
    }
  }

  // ---- What the calls promise, as functions of the bytes not yet delivered ----

  /** The bytes up to and including the first newline, or all of them. */
  function LineLength(rest: seq<Byte>): (k: nat)
    ensures k <= |rest| && (rest != [] ==> k > 0)
    ensures forall j | 0 <= j < k - 1 :: rest[j] != NEWLINE
    ensures k < |rest| ==> rest[k - 1] == NEWLINE
  {
    if rest == [] then 0 else if rest[0] == NEWLINE then 1 else 1 + LineLength(rest[1..])
  }

  /** How many bytes a call of `rio_readlineb` stores. */
  function Stored(rest: seq<Byte>, maxlen: nat): nat {
    Min(LineLength(rest), if maxlen == 0 then 0 else maxlen - 1)
  }

  /** Its result: one more than the bytes stored, unless a newline ended the line or nothing was left. */
  function LineResult(rest: seq<Byte>, maxlen: nat): nat {
    var k := Stored(rest, maxlen);
    if maxlen > 1 && rest == [] then 0
    else if k > 0 && rest[k - 1] == NEWLINE then k
    else k + 1
  }

  datatype Call = ReadN(n: nat) | ReadLine(maxlen: nat)

  function Taken(rest: seq<Byte>, c: Call): (k: nat)
    ensures k <= |rest|
  {
    match c
    case ReadN(n) => Min(n, |rest|)
    case ReadLine(maxlen) => Stored(rest, maxlen)
  }

  /** What each call promises of the `k` bytes it delivers, when `rest` was left. */
  ghost predicate Fulfils(c: Call, rest: seq<Byte>, k: nat) {
    k <= |rest|
    && match c
       case ReadN(n) => k <= n && (k < n ==> k == |rest|)
       case ReadLine(maxlen) =>
         && (k == 0 || k <= maxlen - 1) && (forall j | 0 <= j < k - 1 :: rest[j] != NEWLINE)
         && (k < maxlen - 1 && k < |rest| ==> k > 0 && rest[k - 1] == NEWLINE)
  }

  /** No other number of bytes fulfils a call, so each takes exactly as much as it promises. */
  lemma TakenIff(rest: seq<Byte>, c: Call, k: nat)
    ensures Fulfils(c, rest, k) <==> k == Taken(rest, c)
  {
    if c.ReadLine? {
      var m := LineLength(rest);
      if Fulfils(c, rest, k) {
        assert k > 0 && rest[k - 1] == NEWLINE ==> m == k;
      }
    }
  }

  /** The pieces the calls delivered, one for each, and what is left behind them. */
  ghost predicate Served(rest: seq<Byte>, calls: seq<Call>, pieces: seq<seq<Byte>>, left: seq<Byte>)
    decreases |calls|
  {
    if calls == [] then pieces == [] && left == rest
    else |pieces| > 0 && pieces[0] <= rest && Fulfils(calls[0], rest, |pieces[0]|)
         && Served(rest[|pieces[0]|..], calls[1..], pieces[1..], left)
  }

  function Joined(pieces: seq<seq<Byte>>): seq<Byte> {
    if pieces == [] then [] else pieces[0] + Joined(pieces[1..])
  }

  /** Whatever the calls, the pieces they delivered and what is left make up the stream. */
  lemma {:induction false} ServedLosesNothing(rest: seq<Byte>, calls: seq<Call>, pieces: seq<seq<Byte>>, left: seq<Byte>)
    requires Served(rest, calls, pieces, left)
    ensures |pieces| == |calls| && Joined(pieces) + left == rest
    decreases |calls|
  {
    if calls != [] {
      ServedLosesNothing(rest[|pieces[0]|..], calls[1..], pieces[1..], left);
      assert rest == pieces[0] + rest[|pieces[0]|..];
    }
  }

  /** The stored line is the longest prefix that passes neither the first newline nor `maxlen - 1`. */
  lemma LongestLine(rest: seq<Byte>, maxlen: nat, k: nat)
    requires maxlen > 0 && k <= |rest|
    ensures k <= Stored(rest, maxlen) <==> k <= maxlen - 1 && forall j | 0 <= j < k - 1 :: rest[j] != NEWLINE
  {
  }

  /** The result is the number of bytes stored exactly at the end of the stream and after a newline. */
  lemma ResultIsLengthIff(rest: seq<Byte>, maxlen: nat)
    ensures LineResult(rest, maxlen) == Stored(rest, maxlen)
            <==> (maxlen > 1 && rest == []) || (Stored(rest, maxlen) > 0 && rest[Stored(rest, maxlen) - 1] == NEWLINE)
    ensures LineResult(rest, maxlen) == Stored(rest, maxlen) || LineResult(rest, maxlen) == Stored(rest, maxlen) + 1
  {
  }

  /** A line of one letter that the stream ends after: one byte stored, two reported. */
  lemma ResultExceedsLength()
    ensures Stored([97], 10) == 1 && LineResult([97], 10) == 2
  {
    assert LineLength([97]) == 1;
  }

  // ---- The reader ----

  class Reader {
    const fd: Descriptor
    const buf: array<Byte>
    var cnt: int
    var bufptr: nat

    /** How many bytes of the stream have been delivered: those read, but for the ones in the buffer. */
    ghost function Pos(): int
      reads this, fd
    {
      fd.at - if cnt > 0 then cnt else 0
    }

    /** Delivered bytes, unread buffer and unread stream are the original stream. */
    ghost predicate Valid()
      reads this, buf, fd
    {
      buf.Length == RIO_BUFSIZE && 0 <= Pos() && fd.at <= |fd.bytes|
      && (cnt > 0 ==> bufptr + cnt <= buf.Length && buf[bufptr..bufptr + cnt] == fd.bytes[Pos()..fd.at])
    }

    /** The bytes not yet delivered. */
    ghost function Rest(): seq<Byte>
      requires Valid()
      reads this, buf, fd
    {
      fd.bytes[Pos()..]
    }

    /** `rio_readinitb`. */
    constructor (fd: Descriptor)
      requires fd.at <= |fd.bytes|
      ensures Valid() && fresh(buf) && this.fd == fd && Rest() == fd.bytes[fd.at..]
    {
      this.fd := fd;
      buf := new Byte[RIO_BUFSIZE](_ => 0);
      cnt, bufptr := 0, 0;
    }

    /** The loop of `rio_read` that fills an empty buffer; false at the end of the stream. */
    method Refill() returns (some: bool)
      requires Valid()
      modifies this, buf, fd
      ensures Valid() && Pos() == old(Pos())
      ensures (some <==> cnt > 0) && (some <==> Pos() < |fd.bytes|)
    {
      while cnt <= 0
        invariant Valid() && Pos() == old(Pos())
        decreases |fd.script|, -cnt
      {
        cnt := fd.Read(buf, buf.Length);
        if cnt == 0 {
          return false;
        } else if cnt > 0 {
          bufptr := 0;
        }
      }
      return true;
    }

    /** `out` holds, behind its first `off` bytes, those of the stream from `from` up to the delivered ones. */
    ghost predicate HandedOver(out: array<Byte>, off: nat, from: nat)
      reads this, buf, fd, out
    {
      Valid() && from <= Pos() && off + Pos() - from <= out.Length
      && forall k | from <= k < Pos() :: out[off + k - from] == fd.bytes[k]
    }

    /** `rio_read` into `usrbuf` at `off`. */
    method Read(usrbuf: array<Byte>, off: nat, n: nat) returns (rc: nat)
      requires Valid() && n > 0 && off + n <= usrbuf.Length && usrbuf != buf
      modifies this, buf, fd, usrbuf
      ensures HandedOver(usrbuf, off, old(Pos()))
      ensures rc <= n && Pos() == old(Pos()) + rc && (rc == 0 <==> old(Pos()) == |fd.bytes|)
      ensures forall k | 0 <= k < off :: usrbuf[k] == old(usrbuf[k])
    {
      var some := Refill();
      if !some {
        return 0;
      }
      rc := n;
      if cnt < n {
        rc := cnt;
      }
      Copy(usrbuf, off, rc);
      bufptr := bufptr + rc;
      cnt := cnt - rc;
    }

    /** The `memcpy` of `rio_read`. */
    method Copy(usrbuf: array<Byte>, off: nat, rc: nat)
      requires Valid() && rc <= cnt && off + rc <= usrbuf.Length && usrbuf != buf
      modifies usrbuf
      ensures forall k | Pos() <= k < Pos() + rc :: usrbuf[off + k - Pos()] == fd.bytes[k]
      ensures forall k | 0 <= k < off :: usrbuf[k] == old(usrbuf[k])
    {
      forall k | 0 <= k < rc {
        usrbuf[off + k] := buf[bufptr + k];
      }
      if cnt > 0 {
        forall k | Pos() <= k < Pos() + rc ensures usrbuf[off + k - Pos()] == fd.bytes[k] {
          assert fd.bytes[Pos()..fd.at][k - Pos()] == fd.bytes[k];
          assert buf[bufptr..bufptr + cnt][k - Pos()] == buf[bufptr + (k - Pos())];
        }
      }
    }

    /** One more call of `rio_read`, behind the bytes already there. */
    method ReadMore(usrbuf: array<Byte>, n: nat, ghost from: nat, done: nat) returns (rc: nat)
      requires HandedOver(usrbuf, 0, from) && n > 0 && done + n <= usrbuf.Length && usrbuf != buf
      requires Pos() == from + done
      modifies this, buf, fd, usrbuf
      ensures HandedOver(usrbuf, 0, from)
      ensures rc <= n && Pos() == from + done + rc && (rc == 0 <==> from + done == |fd.bytes|)
    {
      rc := Read(usrbuf, done, n);
      forall k | from <= k < Pos() ensures usrbuf[k - from] == fd.bytes[k] {
        if k >= from + done {
          assert usrbuf[done + k - (from + done)] == fd.bytes[k];
        }
      }
    }

    /** `rio_readnb`. */
    method ReadNb(usrbuf: array<Byte>, n: nat) returns (r: nat)
      requires Valid() && n <= usrbuf.Length && usrbuf != buf
      modifies this, buf, fd, usrbuf
      ensures HandedOver(usrbuf, 0, old(Pos())) && Pos() == old(Pos()) + r
      ensures r <= n && r <= |old(Rest())| && (r < n ==> Rest() == [])
      ensures r == Taken(old(Rest()), ReadN(n))
    {
      ghost var from := Pos();
      var nleft: nat := n;
      while nleft > 0
        invariant nleft <= n && HandedOver(usrbuf, 0, from) && Pos() == from + n - nleft
      {
        var nread := ReadMore(usrbuf, nleft, from, n - nleft);
        if nread == 0 {
          break;
        }
        nleft := nleft - nread;
      }
      return n - nleft;
    }

    /** One more byte of a line; it is also the next byte of `rest`. */
    method ReadChar(usrbuf: array<Byte>, ghost from: nat, bufp: nat, ghost rest: seq<Byte>) returns (rc: nat)
      requires HandedOver(usrbuf, 0, from) && bufp < usrbuf.Length && usrbuf != buf
      requires Pos() == from + bufp && rest == fd.bytes[from..]
      modifies this, buf, fd, usrbuf
      ensures HandedOver(usrbuf, 0, from) && Pos() == from + bufp + rc
      ensures if rc == 1 then bufp < |rest| && usrbuf[bufp] == rest[bufp] else rc == 0 && bufp == |rest|
    {
      rc := ReadMore(usrbuf, 1, from, bufp);
      if rc == 1 {
        assert usrbuf[0 + (from + bufp) - from] == fd.bytes[from + bufp];
      }
    }

    /** `rio_readlineb`: the line is stored and ended by a zero byte, unless nothing was left. */
    method ReadLineb(usrbuf: array<Byte>, maxlen: nat) returns (r: nat)
      requires Valid() && maxlen <= usrbuf.Length && 0 < usrbuf.Length && usrbuf != buf
      modifies this, buf, fd, usrbuf
      ensures HandedOver(usrbuf, 0, old(Pos())) && Pos() == old(Pos()) + Taken(old(Rest()), ReadLine(maxlen))
      ensures r == LineResult(old(Rest()), maxlen)
      ensures r > 0 ==> Pos() - old(Pos()) < usrbuf.Length && usrbuf[Pos() - old(Pos())] == 0
    {
      ghost var from, rest := Pos(), Rest();
      var n, bufp := 1, 0;
      while n < maxlen
        invariant n == bufp + 1 && (n <= maxlen || n == 1)
        invariant HandedOver(usrbuf, 0, from) && Pos() == from + bufp && NoNewline(rest, bufp)
      {
        var rc := ReadChar(usrbuf, from, bufp, rest);
        if rc == 1 {
          bufp := bufp + 1;
          if usrbuf[bufp - 1] == NEWLINE {
            break;
          }
        } else {
          if n == 1 {
            return 0;
          }
          break;
        }
        n := n + 1;
      }
      LineEnds(rest, maxlen, bufp, n);
      Terminate(usrbuf, from, bufp);
      return n;
    }

    method Terminate(usrbuf: array<Byte>, ghost from: nat, bufp: nat)
      requires HandedOver(usrbuf, 0, from) && Pos() == from + bufp && bufp < usrbuf.Length && usrbuf != buf
      modifies usrbuf
      ensures HandedOver(usrbuf, 0, from) && Pos() == from + bufp && usrbuf[bufp] == 0
    {
      usrbuf[bufp] := 0;
    }
  }

  ghost predicate NoNewline(rest: seq<Byte>, n: nat) {
    n <= |rest| && forall j | 0 <= j < n :: rest[j] != NEWLINE
  }

  /** The three ways the loop of `rio_readlineb` ends: a newline, no room, or no more bytes. */
  lemma LineEnds(rest: seq<Byte>, maxlen: nat, k: nat, n: nat)
    requires k <= |rest| && NoNewline(rest, if k > 0 && rest[k - 1] == NEWLINE then k - 1 else k)
    requires k < maxlen || k == 0
    requires if k > 0 && rest[k - 1] == NEWLINE then n == k
             else n == k + 1 && (n >= maxlen || (k == |rest| && n > 1))
    ensures k == Stored(rest, maxlen) && n == LineResult(rest, maxlen)
  {
  }

  // ---- Any mix of calls ----

  /** The user buffer has room for every call. */
  ghost predicate Room(out: array<Byte>, calls: seq<Call>) {
    out.Length > 0 && forall c | c in calls :: (if c.ReadN? then c.n else c.maxlen) <= out.Length
  }

  lemma HandedOverIsPrefix(r: Reader, out: array<Byte>, from: nat)
    requires r.HandedOver(out, 0, from)
    ensures var k, rest := r.Pos() - from, r.fd.bytes[from..];
            out[..k] == rest[..k] && r.Rest() == rest[k..]
  {
    var k, rest := r.Pos() - from, r.fd.bytes[from..];
    forall j | 0 <= j < k ensures out[j] == rest[j] {
      assert out[0 + (from + j) - from] == r.fd.bytes[from + j];
    }
  }

  /** One call on the reader; `d` is what it stored in `out`. */
  method OneCall(r: Reader, out: array<Byte>, c: Call) returns (ghost d: seq<Byte>)
    requires r.Valid() && out != r.buf && Room(out, [c])
    modifies r, r.buf, r.fd, out
    ensures r.Valid() && d <= old(r.Rest()) && Fulfils(c, old(r.Rest()), |d|) && r.Rest() == old(r.Rest())[|d|..]
  {
    assert c in [c];
    ghost var from, rest := r.Pos(), r.Rest();
    match c {
      case ReadN(n) =>
        var _ := r.ReadNb(out, n);
      case ReadLine(maxlen) =>
        var _ := r.ReadLineb(out, maxlen);
        TakenIff(rest, c, r.Pos() - from);
    }
    HandedOverIsPrefix(r, out, from);
    d := out[..r.Pos() - from];
  }

  /** The calls one after the other; each piece is what a call stored, taken from `out` before the next call. */
  method RunCalls(r: Reader, out: array<Byte>, calls: seq<Call>) returns (ghost pieces: seq<seq<Byte>>)
    requires r.Valid() && out != r.buf && Room(out, calls)
    modifies r, r.buf, r.fd, out
    ensures r.Valid() && Served(old(r.Rest()), calls, pieces, r.Rest())
    ensures Joined(pieces) + r.Rest() == old(r.Rest())
    decreases |calls|
  {
    ghost var rest := r.Rest();
    pieces := [];
    if calls != [] {
      assert calls[0] in calls && forall c | c in calls[1..] :: c in calls;
      var first := OneCall(r, out, calls[0]);
      var others := RunCalls(r, out, calls[1..]);
      pieces := [first] + others;
      assert pieces[1..] == others;
    }
    ServedLosesNothing(rest, calls, pieces, r.Rest());
  }
}
