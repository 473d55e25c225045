/** Pipes: a buffer of one block, and readers and writers that wait for it.

    The ghost fields `accepted` and `delivered` record every cell taken from a writer, and
    every cell handed to a reader, since the pipe was made.
 */
module Pipes {
  const PIPE_LIMIT: nat := 1024
  const SUSPEND: int := -998
  const ENOMEM: int := -12
  const ENOSPC: int := -28
  const EPIPE: int := -32

  type Cell = int

  /** A process that waits, and what it asked for. */
  datatype Reader = Reader(who: int, count: nat)
  datatype Writer = Writer(who: int, data: seq<Cell>)

  /** The reply to a process that waited. */
  datatype Woken<T> = Nobody | Woken(who: int, result: T)

  /** What a call depends on besides the pipe: the caller, whether it uses the end it should, whether
      the other end is open, how the caller treats SIGPIPE, O_NONBLOCK, and whether there is
      kernel memory for an entry in a waiting list. */
  datatype Call = Call(who: int, wrongEnd: bool, otherEndClosed: bool, ignoresSigpipe: bool, nonblock: bool, memory: bool)

  function Min(a: nat, b: nat): nat {
    if a < b then a else b
  }

  class Pipe {
    const data: array<Cell>
    var pos: nat
    var readers: seq<Reader>
    var writers: seq<Writer>
    ghost var accepted: seq<Cell>
    ghost var delivered: seq<Cell>

    /** What was accepted is what was delivered, followed by what the pipe holds. */
    ghost predicate Stream()
      reads this, data
    {
      data.Length == PIPE_LIMIT && pos <= PIPE_LIMIT && accepted == delivered + data[..pos]
    }

    ghost predicate WaitersOk()
      reads this
    {
      && (forall i :: 0 <= i < |readers| ==> readers[i].count >= 1)
      && forall i :: 0 <= i < |writers| ==> 1 <= |writers[i].data| <= PIPE_LIMIT
    }

    ghost predicate Valid()
      reads this, data
    {
      Stream() && WaitersOk()
    }

    /** At most one reader waits, and only while the pipe is empty; writers wait only while it is not.
        So readers and writers never wait together. */
    ghost predicate Progress()
      reads this
    {
      |readers| <= 1 && (readers != [] ==> pos == 0) && (writers != [] ==> pos > 0)
    }

    constructor ()
      ensures Valid() && Progress() && accepted == [] && delivered == [] && readers == [] && writers == [] && fresh(data)
    {
      data := new Cell[PIPE_LIMIT];
      pos, readers, writers, accepted, delivered := 0, [], [], [], [];
    }

    /** shift_pipe_data: the cells from i0 on move to the front.  For i0 == 0 it erases them. */
    method ShiftPipeData(i0: nat)
      requires data.Length == PIPE_LIMIT && i0 <= pos <= PIPE_LIMIT
      modifies data, `pos
      ensures pos == old(pos) - i0
      ensures forall k :: 0 <= k < pos ==> data[k] == if i0 == 0 then 0 else old(data[k + i0])
    {
      var i, j, end := i0, 0, pos;
      while i < end
        invariant 0 <= j == i - i0 && i <= end
        invariant forall k :: 0 <= k < j ==> data[k] == if i0 == 0 then 0 else old(data[k + i0])
        invariant forall k :: i <= k < end ==> data[k] == old(data[k])
      {
        data[j] := data[i];
        data[i] := 0;
        i, j := i + 1, j + 1;
      }
      var k := j;
      while k < end
        invariant j <= k <= end
        invariant forall m :: 0 <= m < j ==> data[m] == if i0 == 0 then 0 else old(data[m + i0])
      {
        data[k] := 0;
        k := k + 1;
      }
      pos := j;
    }

    /** _pipe_read.  A read of nothing from a pipe that holds something destroys what it holds. */
    method TakeOut(count: nat) returns (out: seq<Cell>)
      requires data.Length == PIPE_LIMIT && pos <= PIPE_LIMIT
      modifies data, `pos, `delivered
      ensures |out| == Min(count, old(pos)) && out == old(data[..|out|]) && pos == old(pos) - |out|
      ensures delivered == old(delivered) + out
      ensures data[..pos] == old(data[|out|..pos]) <==> count > 0 || forall k :: 0 <= k < old(pos) ==> old(data[k]) == 0
      ensures old(Stream()) ==> (Stream() <==> count > 0 || forall k :: 0 <= k < old(pos) ==> old(data[k]) == 0)
    {
      out := [];
      var end := if count < pos then count else pos;
      for i := 0 to end
        invariant out == data[..i]
      {
        out := out + [data[i]];
      }
      ghost var was := data[..pos];
      assert out == was[..end];
      ShiftPipeData(end);
      TakenOff(delivered, was, end, data[..pos]);
      delivered := delivered + out;
    }

    /** _pipe_write: as much as fits. */
    method PutIn(src: seq<Cell>) returns (n: nat)
      requires data.Length == PIPE_LIMIT && pos <= PIPE_LIMIT
      modifies data, `pos, `accepted
      ensures n == Min(|src|, PIPE_LIMIT - old(pos)) && pos == old(pos) + n
      ensures accepted == old(accepted) + src[..n] && data[..pos] == old(data[..pos]) + src[..n]
      ensures old(Stream()) ==> Stream()
    {
      var off := pos;
      var end := if off + |src| < PIPE_LIMIT then off + |src| else PIPE_LIMIT;
      for i := off to end
        invariant pos == off && accepted == old(accepted)
        invariant data[..i] == old(data[..pos]) + src[..i - off]
      {
        data[i] := src[i - off];
        assert data[..i + 1] == data[..i] + [src[i - off]];
      }
      n := end - off;
      pos := pos + n;
      accepted := accepted + src[..n];
    }

    /** pipe_read of count cells; woken is the writer that is replied to, with what it wrote.  A read of nothing keeps the stream
        exactly if it does not get as far as the data, or if they are all zero; and it may wait as a reader of nothing. */
    method PipeRead(call: Call, count: nat) returns (ret: int, out: seq<Cell>, woken: Woken<nat>)
      requires Valid()
      modifies this, data
      ensures old(Progress()) && old(readers) == [] ==> Progress()
      ensures count >= 1 ==> Valid()
      ensures Stream() <==> count >= 1 || call.wrongEnd || call.otherEndClosed || forall k :: 0 <= k < old(pos) ==> old(data[k]) == 0
      ensures WaitersOk() <==> count >= 1 || ret != SUSPEND
      ensures ret > 0 <==> !call.wrongEnd && !call.otherEndClosed && old(pos) > 0 && count > 0
      ensures ret == ENOMEM <==> !call.wrongEnd && !call.otherEndClosed && old(pos) == 0 && !call.nonblock && !call.memory
      ensures ret > 0 || ret in {0, ENOMEM, SUSPEND}
      ensures delivered == old(delivered) + out && (ret > 0 ==> ret == |out| == Min(count, old(pos)))
      ensures ret <= 0 ==> out == [] && woken == Nobody && pos == old(pos) && accepted == old(accepted) && writers == old(writers)
      ensures if ret == SUSPEND then readers == [Reader(call.who, count)] + old(readers) else readers == old(readers)
      ensures ret == SUSPEND <==> !call.wrongEnd && !call.otherEndClosed && old(pos) == 0 && !call.nonblock && call.memory
      ensures woken.Woken? <==> ret > 0 && old(writers) != []
      ensures woken.Woken? ==> writers == old(writers)[1..] && Served(old(writers[0]), woken, accepted, old(accepted)) && woken.result > 0
      ensures woken.Woken? ==> woken.result == Min(|old(writers[0]).data|, PIPE_LIMIT - (old(pos) - |out|))
      ensures ret > 0 && woken.Nobody? ==> writers == old(writers) && accepted == old(accepted)
    {
      out, woken := [], Nobody;
      if call.wrongEnd {
        return 0, [], Nobody;
      }
      if call.otherEndClosed {
        return 0, [], Nobody;
      }
      if pos == 0 {
        if call.nonblock {
          return 0, [], Nobody;
        }
        if !call.memory {
          return ENOMEM, [], Nobody;
        }
        readers := [Reader(call.who, count)] + readers;
        assert readers[0].count == count;
        return SUSPEND, [], Nobody;
      }
      out := TakeOut(count);
      ret := |out|;
      if ret == 0 {
        return;
      }
      if writers != [] {
        var next := writers[0];
        writers := writers[1..];
        var ret2 := PutIn(next.data);
        woken := Woken(next.who, ret2);
      }
    }

    /** pipe_write; woken is the reader that is replied to, with what it read. */
    method PipeWrite(call: Call, src: seq<Cell>) returns (ret: int, woken: Woken<seq<Cell>>)
      requires Valid()
      modifies this, data
      ensures Valid() && (old(Progress()) ==> Progress())
      ensures ret > 0 <==> !call.wrongEnd && !call.otherEndClosed && 0 < |src| <= PIPE_LIMIT - old(pos)
      ensures ret > 0 || ret in {0, EPIPE, ENOSPC, ENOMEM, SUSPEND}
      ensures ret == EPIPE <==> !call.wrongEnd && call.otherEndClosed && call.ignoresSigpipe
      ensures ret == ENOMEM <==>
              !call.wrongEnd && !call.otherEndClosed && PIPE_LIMIT - old(pos) < |src| <= PIPE_LIMIT && !call.nonblock && !call.memory
      ensures ret > 0 ==> ret == |src| && accepted == old(accepted) + src
      ensures ret <= 0 ==> woken == Nobody && pos == old(pos) && accepted == old(accepted) && delivered == old(delivered) && readers == old(readers)
      ensures if ret == SUSPEND && !call.otherEndClosed then writers == [Writer(call.who, src)] + old(writers) else writers == old(writers)
      ensures ret == SUSPEND && call.otherEndClosed <==> !call.wrongEnd && call.otherEndClosed && !call.ignoresSigpipe
      ensures ret == SUSPEND && !call.otherEndClosed <==>
              !call.wrongEnd && !call.otherEndClosed && PIPE_LIMIT - old(pos) < |src| <= PIPE_LIMIT && !call.nonblock && call.memory
      ensures ret == ENOSPC <==> !call.wrongEnd && !call.otherEndClosed && |src| > PIPE_LIMIT
      ensures woken.Woken? <==> ret > 0 && old(readers) != []
      ensures woken.Woken? ==> readers == old(readers)[1..] && woken.who == old(readers[0]).who && woken.result != []
      ensures woken.Woken? ==> |woken.result| == Min(old(readers[0]).count, old(pos) + |src|) && delivered == old(delivered) + woken.result
      ensures ret > 0 && woken.Nobody? ==> readers == old(readers) && delivered == old(delivered)
      // With more than one reader waiting for an empty pipe, one is left behind although there is data,
      // unless the one that is woken takes it all.
      ensures ret > 0 && old(pos) == 0 ==>
        ((readers != [] ==> pos == 0) <==> |old(readers)| <= 1 || old(readers[0]).count >= |src|)
    {
      woken := Nobody;
      if call.wrongEnd {
        return 0, Nobody;
      }
      if call.otherEndClosed {
        if call.ignoresSigpipe {
          return EPIPE, Nobody;
        }
        return SUSPEND, Nobody;
      }
      if |src| > PIPE_LIMIT {
        return ENOSPC, Nobody;
      }
      if |src| > PIPE_LIMIT - pos {
        if call.nonblock {
          return 0, Nobody;
        }
        if !call.memory {
          return ENOMEM, Nobody;
        }
        writers := [Writer(call.who, src)] + writers;
        return SUSPEND, Nobody;
      }
      ret := PutIn(src);
      if ret == 0 {
        return;
      }
      assert src[..ret] == src;
      if readers != [] {
        var next := readers[0];
        readers := readers[1..];
        var out := TakeOut(next.count);
        woken := Woken(next.who, out);
      }
    }
  }

  /** What taking n cells off the front does to the stream; for n == 0 they are erased. */
  lemma {:induction false} TakenOff(delivered: seq<Cell>, was: seq<Cell>, n: nat, now: seq<Cell>)
    requires n <= |was| && |now| == |was| - n
    requires forall k :: 0 <= k < |now| ==> now[k] == if n == 0 then 0 else was[k + n]
    ensures now == was[n..] <==> n > 0 || forall k :: 0 <= k < |was| ==> was[k] == 0
    ensures delivered + was == (delivered + was[..n]) + now <==> now == was[n..]
  {
    if n == 0 && now == was[0..] {
      assert forall k :: 0 <= k < |was| ==> was[k] == now[k];
    }
    assert delivered + was == (delivered + was[..n]) + was[n..];
    Cancel(delivered + was[..n], now, was[n..]);
  }

  lemma {:induction false} Cancel(a: seq<Cell>, b: seq<Cell>, c: seq<Cell>)
    ensures a + b == a + c <==> b == c
  {
    assert b == (a + b)[|a|..] && c == (a + c)[|a|..];
  }

  /** A waiting writer is told how much of its data was taken, and that much was. */
  ghost predicate Served(w: Writer, woken: Woken<nat>, accepted: seq<Cell>, before: seq<Cell>) {
    woken.Woken? && woken.who == w.who && woken.result <= |w.data| && accepted == before + w.data[..woken.result]
  }
}
