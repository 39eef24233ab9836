/** Sending and receiving over a stream that cuts the octets into pieces as it likes. */
module Transfer {
  import opened Bits

  function Sum(calls: seq<int>): int {
    if calls == [] then 0 else Sum(calls[..|calls| - 1]) + calls[|calls| - 1]
  }

  /** How many of the last calls returned nothing. */
  function TrailingZeros(calls: seq<int>): (n: nat) {
    if calls == [] || calls[|calls| - 1] != 0 then 0 else 1 + TrailingZeros(calls[..|calls| - 1])
  }

  /** A connection: octets arrive in the order in which they were sent. Each system call may move fewer octets than
      asked for, or fail. */
  class Channel {
    var inFlight: seq<Byte>

    /** `::send` of a non-empty piece: an error, or some octets go out. */
    method SysSend(data: seq<Byte>) returns (cur: int)
      requires data != []
      modifies this
      ensures cur == -1 || 0 < cur <= |data|
      ensures inFlight == old(inFlight) + if cur == -1 then [] else data[..cur]
    {
      cur :| -1 <= cur <= |data| && cur != 0;
      if cur != -1 {
        inFlight := inFlight + data[..cur];
      } else {
        assert inFlight + [] == inFlight;
      }
    }

    /** `recv` of at most `max` octets: an error, nothing, or some of the octets that are on their way. */
    method SysRecv(max: nat) returns (num: int, data: seq<Byte>)
      modifies this
      ensures num <= max && num <= |old(inFlight)|
      ensures data == (if num < 0 then [] else old(inFlight)[..num])
      ensures inFlight == if num < 0 then old(inFlight) else old(inFlight)[num..]
    {
      num :| -1 <= num <= max && num <= |inFlight|;
      data := [];
      if num >= 0 {
        data, inFlight := inFlight[..num], inFlight[num..];
      }
    }
  }

  /** The last of the calls failed, and those before it, which did not, moved fewer octets than `buffer` has. */
  ghost predicate CutShort(calls: seq<int>, buffer: seq<Byte>) {
    && calls != []
    && calls[|calls| - 1] == -1
    && -1 !in calls[..|calls| - 1]
    && 0 <= Sum(calls[..|calls| - 1]) < |buffer|
  }

  /** The loop over one buffer. `calls` lists what the system calls returned. */
  method SendBuffer(ch: Channel, buffer: seq<Byte>) returns (ok: bool, ghost calls: seq<int>)
    modifies ch
    ensures ok ==> -1 !in calls && ch.inFlight == old(ch.inFlight) + buffer
    ensures !ok ==> CutShort(calls, buffer)
    ensures !ok ==> ch.inFlight == old(ch.inFlight) + buffer[..Sum(calls[..|calls| - 1])]
  {
    var sent := 0;
    calls := [];
    if |buffer| == 0 {
      assert old(ch.inFlight) + [] == old(ch.inFlight);
      return true, calls;
    }
    while sent < |buffer|
      invariant 0 <= sent <= |buffer| && -1 !in calls && Sum(calls) == sent
      invariant ch.inFlight == old(ch.inFlight) + buffer[..sent]
      decreases |buffer| - sent
    {
      ghost var before := calls;
      var cur := ch.SysSend(buffer[sent..]);
      calls := calls + [cur];
      assert calls[..|calls| - 1] == before;
      if cur == -1 {
        return false, calls;
      }
      assert buffer[..sent] + buffer[sent..][..cur] == buffer[..sent + cur];
      sent := sent + cur;
    }
    return true, calls;
  }

  function Joined(buffers: seq<seq<Byte>>): (all: seq<Byte>) {
    if buffers == [] then [] else Joined(buffers[..|buffers| - 1]) + buffers[|buffers| - 1]
  }

  /** `part` is what the buffers hold before some place short of their end. */
  ghost predicate ProperPart(buffers: seq<seq<Byte>>, part: seq<Byte>) {
    exists i: nat, k: nat ::
      i < |buffers| && k < |buffers[i]| && part == Joined(buffers[..i]) + buffers[i][..k]
  }

  /** `send`: the buffers one after the other, up to the first that fails. */
  method Send(ch: Channel, buffers: seq<seq<Byte>>) returns (rc: int)
    modifies ch
    ensures rc == 0 || rc == -1
    ensures rc == 0 ==> ch.inFlight == old(ch.inFlight) + Joined(buffers)
    ensures rc == -1 ==> exists part :: ProperPart(buffers, part) && ch.inFlight == old(ch.inFlight) + part
  {
    assert old(ch.inFlight) + [] == old(ch.inFlight);
    for i := 0 to |buffers|
      invariant ch.inFlight == old(ch.inFlight) + Joined(buffers[..i])
    {
      ghost var before := ch.inFlight;
      ghost var calls;
      var ok;
      ok, calls := SendBuffer(ch, buffers[i]);
      if !ok {
        ghost var k := Sum(calls[..|calls| - 1]);
        ghost var part := Joined(buffers[..i]) + buffers[i][..k];
        assert before + buffers[i][..k] == old(ch.inFlight) + part;
        assert ProperPart(buffers, part);
        return -1;
      }
      assert buffers[..i + 1][..i] == buffers[..i];
    }
    assert buffers[..|buffers|] == buffers;
    return 0;
  }

  /** Calls after which the receiver goes on: no error, and at most ten in a row with nothing. */
  ghost predicate Patient(calls: seq<int>) {
    && (forall i: nat :: i < |calls| ==> calls[i] >= 0)
    && (forall i: nat :: i <= |calls| ==> TrailingZeros(calls[..i]) <= 10)
  }

  /** The last of the calls failed, or was the eleventh in a row to return nothing. */
  ghost predicate GaveUp(calls: seq<int>) {
    && calls != []
    && Patient(calls[..|calls| - 1])
    && (calls[|calls| - 1] < 0 || TrailingZeros(calls) == 11)
  }

  /** The `n` calls before `end` returned nothing. */
  ghost predicate Nothing(calls: seq<int>, end: nat, n: nat) {
    n <= end <= |calls| && forall j: nat :: end - n <= j < end ==> calls[j] == 0
  }

  lemma {:induction false} ZerosTrail(calls: seq<int>, n: nat)
    ensures TrailingZeros(calls) >= n <==> Nothing(calls, |calls|, n)
  {
    if n > 0 && calls != [] {
      var before := calls[..|calls| - 1];
      ZerosTrail(before, n - 1);
      assert forall j: nat :: j < |before| ==> before[j] == calls[j];
    }
  }

  lemma ZerosBefore(calls: seq<int>, end: nat)
    requires end <= |calls|
    ensures TrailingZeros(calls[..end]) <= 10 <==> !Nothing(calls, end, 11)
  {
    ZerosTrail(calls[..end], 11);
    assert forall j: nat :: j < end ==> calls[..end][j] == calls[j];
  }

  /** The receiver goes on as long as no call fails and no eleven calls in a row return nothing. */
  lemma PatientIs(calls: seq<int>)
    ensures Patient(calls)
       <==> && (forall i: nat :: i < |calls| ==> calls[i] >= 0)
            && (forall end: nat :: end <= |calls| ==> !Nothing(calls, end, 11))
  {
    forall end: nat | end <= |calls|
      ensures TrailingZeros(calls[..end]) <= 10 <==> !Nothing(calls, end, 11)
    {
      ZerosBefore(calls, end);
    }
  }

  /** It gives up at the first call that fails, and at the eleventh in a row that returns nothing. */
  lemma GaveUpIs(calls: seq<int>)
    requires GaveUp(calls)
    ensures calls != [] && Patient(calls[..|calls| - 1])
    ensures calls[|calls| - 1] < 0 || Nothing(calls, |calls|, 11)
  {
    ZerosTrail(calls, 11);
  }

  /** `now` is `was` with `data` written over what begins at `at`. */
  ghost predicate Overwritten(was: seq<Byte>, at: nat, data: seq<Byte>, now: seq<Byte>) {
    && |now| == |was| >= at + |data|
    && forall i: nat :: i < |now| ==> now[i] == if at <= i < at + |data| then data[i - at] else was[i]
  }

  /** `got` octets have been taken from the stream and put, in order, where the last `n` of the buffer begin. */
  ghost predicate Taken(start: seq<Byte>, stream: seq<Byte>, n: nat, got: nat, buffer: seq<Byte>, inFlight: seq<Byte>) {
    && got <= n <= |start|
    && got <= |stream|
    && inFlight == stream[got..]
    && Overwritten(start, |start| - n, stream[..got], buffer)
  }

  /** One `recv` into the end of the buffer. */
  method ReceiveInto(ch: Channel, buffer: array<Byte>, left: nat, ghost n: nat, ghost start: seq<Byte>,
                     ghost stream: seq<Byte>)
    returns (num: int)
    requires left <= n && Taken(start, stream, n, n - left, buffer[..], ch.inFlight)
    modifies ch, buffer
    ensures num <= left
    ensures Taken(start, stream, n, n - left + if num < 0 then 0 else num, buffer[..], ch.inFlight)
  {
    ghost var before, channel := buffer[..], ch.inFlight;
    var data;
    num, data := ch.SysRecv(left);
    if num > 0 {
      Place(buffer, buffer.Length - left, data);
      TakenMore(start, stream, n, n - left, num, before, channel, buffer[..]);
    }
  }

  /** `receive`: fills the last `n` octets of the buffer. It gives up at an error, or at the eleventh call in a row
      that returns nothing. */
  method Receive(ch: Channel, buffer: array<Byte>, n: nat) returns (rc: int, ghost calls: seq<int>)
    requires n <= buffer.Length
    modifies ch, buffer
    ensures rc == 0 || rc == -1
    ensures rc == 0 ==> Patient(calls)
    ensures rc == 0 ==> Taken(old(buffer[..]), old(ch.inFlight), n, n, buffer[..], ch.inFlight)
    ensures rc == -1 ==> GaveUp(calls)
    ensures rc == -1 ==>
              exists k: nat :: k < n && Taken(old(buffer[..]), old(ch.inFlight), n, k, buffer[..], ch.inFlight)
  {
    calls := [];
    ghost var start, stream := buffer[..], ch.inFlight;
    if n == 0 {
      return 0, calls;
    }
    var left, retry := n, 0;
    while left != 0
      invariant 0 <= left <= n && Taken(start, stream, n, n - left, buffer[..], ch.inFlight)
      invariant 0 <= retry <= 10 && retry == TrailingZeros(calls) && Patient(calls)
      decreases left, 10 - retry
    {
      var num := ReceiveInto(ch, buffer, left, n, start, stream);
      OneMoreCall(calls, num);
      calls := calls + [num];
      if num < 0 || (num == 0 && retry == 10) {
        return -1, calls;
      }
      left, retry := left - num, if num == 0 then retry + 1 else 0;
    }
    return 0, calls;
  }

  lemma OneMoreCall(calls: seq<int>, num: int)
    requires Patient(calls)
    ensures (calls + [num])[..|calls|] == calls
    ensures TrailingZeros(calls + [num]) == if num == 0 then TrailingZeros(calls) + 1 else 0
    ensures num >= 0 && TrailingZeros(calls + [num]) <= 10 ==> Patient(calls + [num])
  {
    assert (calls + [num])[..|calls|] == calls;
    if num >= 0 && TrailingZeros(calls + [num]) <= 10 {
      forall i: nat | i <= |calls| + 1
        ensures TrailingZeros((calls + [num])[..i]) <= 10
      {
        if i <= |calls| {
          assert (calls + [num])[..i] == calls[..i];
        } else {
          assert (calls + [num])[..i] == calls + [num];
        }
      }
    }
  }

  lemma TakenMore(start: seq<Byte>, stream: seq<Byte>, n: nat, got: nat, num: nat, buffer: seq<Byte>,
                  inFlight: seq<Byte>, after: seq<Byte>)
    requires Taken(start, stream, n, got, buffer, inFlight) && got + num <= n && num <= |inFlight|
    requires Overwritten(buffer, |buffer| - n + got, inFlight[..num], after)
    ensures Taken(start, stream, n, got + num, after, inFlight[num..])
  {
    assert inFlight[num..] == stream[got + num..];
    var all := stream[..got + num];
    forall i: nat | i < |after|
      ensures after[i] == if |start| - n <= i < |start| - n + |all| then all[i - (|start| - n)] else start[i]
    {
    }
  }

  /** What `recv` does to the buffer: the octets go to a place in it. */
  method Place(buffer: array<Byte>, at: nat, data: seq<Byte>)
    requires at + |data| <= buffer.Length
    modifies buffer
    ensures Overwritten(old(buffer[..]), at, data, buffer[..])
  {
    for i := 0 to |data|
      invariant forall j: nat :: j < buffer.Length ==>
                  buffer[j] == if at <= j < at + i then data[j - at] else old(buffer[j])
    {
      buffer[at + i] := data[i];
    }
  }

  /** Whatever the fragmentation, a send and a receive of as many octets that both succeed put the first of all that
      was on its way at the end of the buffer, in order, and leave the rest of both alone. If nothing was on its way
      before, that is exactly what was sent. */
  method SendThenReceive(ch: Channel, buffers: seq<seq<Byte>>, buffer: array<Byte>) returns (ok: bool)
    requires |Joined(buffers)| <= buffer.Length
    modifies ch, buffer
    ensures var n, stream := |Joined(buffers)|, old(ch.inFlight) + Joined(buffers);
            && (ok ==> ch.inFlight == stream[n..])
            && (ok ==> buffer[..] == old(buffer[..buffer.Length - |Joined(buffers)|]) + stream[..n])
            && (ok && old(ch.inFlight) == [] ==> ch.inFlight == [] && stream[..n] == Joined(buffers))
  {
    var sent := Send(ch, buffers);
    if sent != 0 {
      return false;
    }
    ghost var calls;
    var received;
    received, calls := Receive(ch, buffer, |Joined(buffers)|);
    return received == 0;
  }
}
