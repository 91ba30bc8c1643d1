/** timeoutRecv (main.c:14-36): wait with select until the one socket is
    readable or the timeout elapses, then recv once, and report the result on
    one signed integer: -1 for a timeout, -2 for an error of either call, and
    the byte count otherwise, so that an empty datagram (0) stays apart from a
    timeout. */
module BoundedReceive {
  import opened Platform

  /** Which of the two calls failed. */
  datatype Cause = SelectError | RecvError

  /** The three outcomes of one bounded receive. */
  datatype Outcome = TimedOut | Failed(cause: Cause) | Received(count: nat)

  /** The results select and recv can have inside timeoutRecv: select watches
      one descriptor, so it reports at most one ready; recv is reached exactly
      when select reported readiness, and then returns -1 or at most `size`. */
  predicate Possible(selectRet: int, recvRet: Option<int>, size: nat)
  {
    && -1 <= selectRet <= 1
    && (recvRet.None? <==> selectRet <= 0)
    && (recvRet.Some? ==> -1 <= recvRet.value <= size)
  }

  /** The integer timeoutRecv returns, given what select returned and, when
      it was called, what recv returned. */
  function Encode(selectRet: int, recvRet: Option<int>): (r: int)
    requires selectRet == 0 || selectRet == -1 || recvRet.Some?
  {
    if selectRet == 0 || selectRet == -1 then selectRet - 1
    else if recvRet.value == -1 then -2
    else recvRet.value
  }

  /** What the two calls mean, without any integer encoding. */
  function Meaning(selectRet: int, recvRet: Option<int>, size: nat): (o: Outcome)
    requires Possible(selectRet, recvRet, size)
  {
    if selectRet == 0 then TimedOut
    else if selectRet == -1 then Failed(SelectError)
    else if recvRet.value == -1 then Failed(RecvError)
    else Received(recvRet.value)
  }

  /** The integer encoding keeps the three outcomes apart in both directions
      (only which call failed is lost), and its values lie in
      {-2} + {-1} + [0, size]. */
  lemma EncodingIsFaithful(selectRet: int, recvRet: Option<int>, size: nat)
    requires Possible(selectRet, recvRet, size)
    ensures Encode(selectRet, recvRet) == -1 <==> Meaning(selectRet, recvRet, size).TimedOut?
    ensures Encode(selectRet, recvRet) == -2 <==> Meaning(selectRet, recvRet, size).Failed?
    ensures Encode(selectRet, recvRet) >= 0 <==> Meaning(selectRet, recvRet, size).Received?
    ensures Meaning(selectRet, recvRet, size).Received? ==>
              Encode(selectRet, recvRet) == Meaning(selectRet, recvRet, size).count
    ensures -2 <= Encode(selectRet, recvRet) <= size
  {
  }

  /** An empty datagram after readiness is reported as 0, which is neither the
      timeout value nor the error value. */
  lemma EmptyDatagramIsNotTimeout(size: nat)
    ensures Encode(1, Some(0)) == 0
    ensures Meaning(1, Some(0), size) == Received(0)
    ensures Encode(1, Some(0)) != Encode(0, None) && Encode(1, Some(0)) != Encode(-1, None)
  {
  }

  /** timeoutRecv. The ghost results record the call to select (the descriptor
      count and the read set it was given, and its result) and the result of
      recv, None when recv was not called. */
  method TimeoutRecv(socketFd: int, buffer: array<Byte>, size: nat, timeout: TimeVal,
                     datagram: seq<Byte>)
    returns (r: int, ghost nfds: int, ghost watched: seq<bool>,
             ghost selectRet: int, ghost recvRet: Option<int>)
    requires 0 <= socketFd < FdSetSize
    requires size <= buffer.Length
    modifies buffer
    ensures nfds == socketFd + 1
    ensures |watched| == FdSetSize && forall fd :: 0 <= fd < FdSetSize ==> (watched[fd] <==> fd == socketFd)
    ensures Possible(selectRet, recvRet, size)
    ensures r == Encode(selectRet, recvRet)
    ensures recvRet.Some? && recvRet.value != -1 ==> recvRet.value == Min(|datagram|, size)
    ensures r < 0 ==> buffer[..] == old(buffer[..])
    ensures r >= 0 ==> r == Min(|datagram|, size) && buffer[..] == AfterRecv(old(buffer[..]), datagram, size)
  {
    var fdCount := socketFd + 1;
    var readSet := new bool[FdSetSize];
    FdZero(readSet);
    FdSet(socketFd, readSet);
    nfds, watched := fdCount, readSet[..];
    CountMarkedSingleton(readSet[..fdCount], socketFd);
    var ready := Select(fdCount, readSet, timeout);
    selectRet := ready;
    if ready == 0 || ready == -1 {
      recvRet := None;
      r := ready - 1;
      return;
    }
    var n := Recv(socketFd, buffer, size, datagram);
    recvRet := Some(n);
    if n == -1 {
      r := -2;
    } else {
      r := n;
    }
  }
}
