/**
 * WriteToFd of easelog.cpp: write all of a buffer to a descriptor, retrying
 * partial writes, through the debug HANDLE_EINTR, and giving up at the first
 * failure. `write` itself is the system-call oracle of the Platform module.
 */
module Sink {
  import opened Common
  import opened Platform

  /** Where a WriteToFd run ends: bytes written, the next call number, errno, and what reached the descriptor. */
  datatype WriteOutcome = WriteOutcome(written: nat, next: nat, errno: int, out: seq<Output>)

  /**
   * The rest of a WriteToFd run with `written` bytes already out and call
   * number `k` next: one HANDLE_EINTR-wrapped write of the remaining bytes,
   * then stop on a negative result or carry on from the new position.
   */
  function Outcome(oracle: Oracle, fd: int, data: string, written: nat, k: nat, errno: int): WriteOutcome
    requires written <= |data|
    decreases |data| - written
  {
    if written == |data| then WriteOutcome(written, k, errno, [])
    else
      var c := Eintr(oracle, k, |data| - written, errno);
      if c.result < 0 then WriteOutcome(written, c.next, c.errno, [])
      else
        var rest := Outcome(oracle, fd, data, written + c.result, c.next, c.errno);
        WriteOutcome(rest.written, rest.next, rest.errno, [FdWrite(fd, data[written..written + c.result])] + rest.out)
  }

  predicate AllTo(out: seq<Output>, fd: int)
  {
    forall i :: 0 <= i < |out| ==> out[i].FdWrite? && out[i].fd == fd && out[i].bytes != []
  }

  /** A single write's bytes. */
  lemma OneWrite(fd: int, bytes: string)
    ensures BytesTo([FdWrite(fd, bytes)], fd) == bytes
  {
    assert [FdWrite(fd, bytes)][1..] == [];
  }

  /** Prepending a non-empty write to `fd` keeps every write to `fd` and non-empty. */
  lemma AllToCons(fd: int, bytes: string, rest: seq<Output>)
    requires bytes != [] && AllTo(rest, fd)
    ensures AllTo([FdWrite(fd, bytes)] + rest, fd)
  {
    var all := [FdWrite(fd, bytes)] + rest;
    forall i | 0 <= i < |all|
      ensures all[i].FdWrite? && all[i].fd == fd && all[i].bytes != []
    {
      if i > 0 {
        assert all[i] == rest[i - 1];
      }
    }
  }

  /** Two runs of writes to `fd` make one. */
  lemma AllToAppend(a: seq<Output>, b: seq<Output>, fd: int)
    requires AllTo(a, fd) && AllTo(b, fd)
    ensures AllTo(a + b, fd)
  {
    forall i | 0 <= i < |a + b|
      ensures (a + b)[i].FdWrite? && (a + b)[i].fd == fd && (a + b)[i].bytes != []
    {
      if i >= |a| {
        assert (a + b)[i] == b[i - |a|];
      }
    }
  }

  /** A slice of a buffer splits at any point between its ends. */
  lemma SliceSplit(s: string, i: nat, j: nat, l: nat)
    requires i <= j <= l <= |s|
    ensures s[i..l] == s[i..j] + s[j..l]
  {
  }

  /**
   * WriteToFd never claims more than the buffer, and it stops short of the
   * end only right after a failed call.
   */
  lemma {:induction false} OutcomeBounds(oracle: Oracle, fd: int, data: string, written: nat, k: nat, errno: int)
    requires written <= |data|
    ensures written <= Outcome(oracle, fd, data, written, k, errno).written <= |data|
    ensures k <= Outcome(oracle, fd, data, written, k, errno).next
    ensures var o := Outcome(oracle, fd, data, written, k, errno);
      o.written < |data| ==> o.next > k && oracle(o.next - 1).Failed?
    decreases |data| - written
  {
    if written < |data| {
      var c := Eintr(oracle, k, |data| - written, errno);
      if c.result >= 0 {
        OutcomeBounds(oracle, fd, data, written + c.result, c.next, c.errno);
      }
    }
  }

  /** Every write WriteToFd makes goes to `fd` and carries at least one byte. */
  lemma {:induction false} OutcomeWrites(oracle: Oracle, fd: int, data: string, written: nat, k: nat, errno: int)
    requires written <= |data|
    ensures AllTo(Outcome(oracle, fd, data, written, k, errno).out, fd)
    decreases |data| - written
  {
    if written < |data| {
      var c := Eintr(oracle, k, |data| - written, errno);
      if c.result >= 0 {
        OutcomeWrites(oracle, fd, data, written + c.result, c.next, c.errno);
        AllToCons(fd, data[written..written + c.result], Outcome(oracle, fd, data, written + c.result, c.next, c.errno).out);
      }
    }
  }

  /**
   * The descriptor receives exactly the buffer's bytes from `written` to the
   * end position, in order.
   */
  lemma {:induction false} OutcomeBytes(oracle: Oracle, fd: int, data: string, written: nat, k: nat, errno: int)
    requires written <= |data|
    ensures var o := Outcome(oracle, fd, data, written, k, errno);
      written <= o.written <= |data| && BytesTo(o.out, fd) == data[written..o.written]
    decreases |data| - written
  {
    if written < |data| {
      var c := Eintr(oracle, k, |data| - written, errno);
      if c.result >= 0 {
        var w: nat := written + c.result;
        OutcomeBytes(oracle, fd, data, w, c.next, c.errno);
        BytesStep(oracle, fd, data, written, k, errno, c, Outcome(oracle, fd, data, w, c.next, c.errno));
      }
    }
  }

  /**
   * A round that writes `data[written..written + rv]` and a rest of the run
   * that puts the buffer from there to its end position on the descriptor
   * make a run that puts the buffer from `written` to that position.
   */
  lemma BytesStep(oracle: Oracle, fd: int, data: string, written: nat, k: nat, errno: int, c: CallOutcome, rest: WriteOutcome)
    requires written < |data| && c == Eintr(oracle, k, |data| - written, errno) && c.result >= 0
    requires rest == Outcome(oracle, fd, data, written + c.result, c.next, c.errno)
    requires written + c.result <= rest.written <= |data| && BytesTo(rest.out, fd) == data[written + c.result..rest.written]
    ensures var o := Outcome(oracle, fd, data, written, k, errno);
      written <= o.written <= |data| && BytesTo(o.out, fd) == data[written..o.written]
  {
    OutcomeStep(oracle, fd, data, written, k, errno);
    ChunkThenRest(fd, data, written, c.result, rest, Outcome(oracle, fd, data, written, k, errno));
  }

  /** One write of `data[written..written + rv]` followed by `rest` puts the buffer from `written` to the end position. */
  lemma ChunkThenRest(fd: int, data: string, written: nat, rv: nat, rest: WriteOutcome, o: WriteOutcome)
    requires written + rv <= rest.written <= |data|
    requires BytesTo(rest.out, fd) == data[written + rv..rest.written]
    requires o.written == rest.written && o.out == [FdWrite(fd, data[written..written + rv])] + rest.out
    ensures written <= o.written <= |data| && BytesTo(o.out, fd) == data[written..o.written]
  {
    var head := [FdWrite(fd, data[written..written + rv])];
    BytesToAppend(head, rest.out, fd);
    OneWrite(fd, data[written..written + rv]);
    SliceSplit(data, written, written + rv, rest.written);
  }

  /** One round of WriteToFd: a failed call ends the run, a successful one writes its bytes and leaves the rest to the next round. */
  lemma OutcomeStep(oracle: Oracle, fd: int, data: string, written: nat, k: nat, errno: int)
    requires written < |data|
    ensures var c := Eintr(oracle, k, |data| - written, errno);
      c.result < 0 ==> Outcome(oracle, fd, data, written, k, errno) == WriteOutcome(written, c.next, c.errno, [])
    ensures var c := Eintr(oracle, k, |data| - written, errno);
      c.result >= 0 ==>
        written + c.result <= |data| &&
        var rest := Outcome(oracle, fd, data, written + c.result, c.next, c.errno);
        Outcome(oracle, fd, data, written, k, errno)
          == WriteOutcome(rest.written, rest.next, rest.errno, [FdWrite(fd, data[written..written + c.result])] + rest.out)
  {
  }

  /** When no call fails, every byte gets out. */
  lemma {:induction false} NoFailureCompletes(oracle: Oracle, fd: int, data: string, written: nat, k: nat, errno: int)
    requires written <= |data|
    requires forall j :: j >= k ==> oracle(j).Accepted?
    ensures Outcome(oracle, fd, data, written, k, errno).written == |data|
    decreases |data| - written
  {
    if written < |data| {
      var c := Eintr(oracle, k, |data| - written, errno);
      assert oracle(c.next - 1).Accepted?;
      NoFailureCompletes(oracle, fd, data, written + c.result, c.next, c.errno);
    }
  }

  /** A buffer already fully written makes no call and changes nothing. */
  lemma NothingLeftNoCall(oracle: Oracle, fd: int, data: string, k: nat, errno: int)
    ensures Outcome(oracle, fd, data, |data|, k, errno) == WriteOutcome(|data|, k, errno, [])
  {
  }

  /**
   * One round of the WriteToFd loop: HANDLE_EINTR around a write of the
   * remaining bytes, and, if it returned a count, that many bytes sent.
   */
  method WriteRound(p: Process, fd: int, data: string, oracle: Oracle, written: nat, k: nat) returns (rv: int, next: nat)
    requires written < |data|
    modifies p
    ensures CallOutcome(rv, next, p.errno) == Eintr(oracle, k, |data| - written, old(p.errno))
    ensures rv < 0 ==> p.trace == old(p.trace)
    ensures rv >= 0 ==> written + rv <= |data| && p.trace == old(p.trace) + [FdWrite(fd, data[written..written + rv])]
    ensures p.terminated == old(p.terminated)
  {
    rv, next := HandleEintr(p, oracle, k, |data| - written);
    if rv >= 0 {
      p.trace := p.trace + [FdWrite(fd, data[written..written + rv])];
    }
  }

  /**
   * Loop invariant of WriteToFd: with `sent` already written and the run
   * continuing from `written`, call `k` and `errno`, the whole run is `final`.
   */
  ghost predicate Remains(oracle: Oracle, fd: int, data: string, written: nat, k: nat, errno: int, sent: seq<Output>, final: WriteOutcome)
    requires written <= |data|
  {
    var o := Outcome(oracle, fd, data, written, k, errno);
    WriteOutcome(o.written, o.next, o.errno, sent + o.out) == final
  }

  /** A successful round moves its bytes from the rest of the run to what was sent. */
  lemma Advance(oracle: Oracle, fd: int, data: string, written: nat, k: nat, errno: int, sent: seq<Output>, final: WriteOutcome,
                rv: int, next: nat, errno': int)
    requires written < |data| && Remains(oracle, fd, data, written, k, errno, sent, final)
    requires CallOutcome(rv, next, errno') == Eintr(oracle, k, |data| - written, errno) && rv >= 0
    ensures written + rv <= |data|
    ensures Remains(oracle, fd, data, written + rv, next, errno', sent + [FdWrite(fd, data[written..written + rv])], final)
  {
    OutcomeStep(oracle, fd, data, written, k, errno);
    var chunk := [FdWrite(fd, data[written..written + rv])];
    var rest := Outcome(oracle, fd, data, written + rv, next, errno');
    assert (sent + chunk) + rest.out == sent + (chunk + rest.out);
  }

  /** A failed round ends the run where it stands. */
  lemma Stop(oracle: Oracle, fd: int, data: string, written: nat, k: nat, errno: int, sent: seq<Output>, final: WriteOutcome,
             rv: int, next: nat, errno': int)
    requires written < |data| && Remains(oracle, fd, data, written, k, errno, sent, final)
    requires CallOutcome(rv, next, errno') == Eintr(oracle, k, |data| - written, errno) && rv < 0
    ensures final == WriteOutcome(written, next, errno', sent)
  {
    OutcomeStep(oracle, fd, data, written, k, errno);
    assert sent + [] == sent;
  }

  /** A run with nothing left to write is over. */
  lemma Done(oracle: Oracle, fd: int, data: string, k: nat, errno: int, sent: seq<Output>, final: WriteOutcome)
    requires Remains(oracle, fd, data, |data|, k, errno, sent, final)
    ensures final == WriteOutcome(|data|, k, errno, sent)
  {
    assert sent + [] == sent;
  }

  /**
   * WriteToFd(fd, data, length): writes the remaining bytes until all are out
   * or a call fails; `next` is the number of the next system call.
   */
  method WriteToFd(p: Process, fd: int, data: string, oracle: Oracle, k: nat) returns (written: nat, next: nat)
    modifies p
    ensures var o := Outcome(oracle, fd, data, 0, k, old(p.errno));
      && written == o.written && next == o.next && p.errno == o.errno
      && p.trace == old(p.trace) + o.out
    ensures p.terminated == old(p.terminated)
  {
    ghost var final := Outcome(oracle, fd, data, 0, k, p.errno);
    ghost var sent: seq<Output> := [];
    ghost var errno := p.errno;
    written, next := 0, k;
    assert sent + final.out == final.out;
    while written < |data|
      invariant written <= |data|
      invariant p.errno == errno && p.trace == old(p.trace) + sent && p.terminated == old(p.terminated)
      invariant Remains(oracle, fd, data, written, next, errno, sent, final)
      decreases |data| - written
    {
      var rv, after := WriteRound(p, fd, data, oracle, written, next);
      if rv < 0 {
        Stop(oracle, fd, data, written, next, errno, sent, final, rv, after, p.errno);
        errno, next := p.errno, after;
        return;
      }
      Advance(oracle, fd, data, written, next, errno, sent, final, rv, after, p.errno);
      written, next, errno, sent := written + rv, after, p.errno, sent + [FdWrite(fd, data[written..written + rv])];
    }
    Done(oracle, fd, data, next, errno, sent, final);
  }
}
