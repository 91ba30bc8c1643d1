/** The decisions main (main.c:38-112) takes around its system calls: the
    argument count, the address and port checks, creating and connecting the
    socket, sending the request, and the three-way dispatch on what
    timeoutRecv returns. */
module Client {
  import opened Platform
  import opened BoundedReceive

  /** An `unsigned long`, as strtoul returns it (64-bit). */
  type ULong = x: int | 0 <= x < 0x1_0000_0000_0000_0000

  /** An `in_port_t`: 16 bits, unsigned. */
  type InPort = x: int | 0 <= x < 0x1_0000

  const MaxPort: nat := 65535

  /** Ports below this are well-known or registered: accepted, with a warning. */
  const FirstDynamicPort: nat := 49152

  /** Capacity of `char received[1024]`. */
  const ReplyCapacity: nat := 1024

  /** The size handed to timeoutRecv: one byte is kept back so that the
      zero-filled buffer always ends in a NUL (see FullReplyIsUnterminated for
      the size 1024 the source passes). */
  const ReceiveSize: nat := ReplyCapacity - 1

  /** `struct timeval timeout = {10, 0}`. */
  const ReplyTimeout: TimeVal := TimeVal(10, 0)

  /** `char message[]`, with the NUL that the array and the send both include. */
  const Request: seq<Byte> := Ascii("Hey, server, it's client\n") + [Nul]

  /** `strlen(message) + 1`: the bytes before the terminator, and the terminator. */
  function RequestLength(): (n: nat)
    ensures n == |Request| == 26
  {
    TakeUntilNulOfTerminated(Ascii("Hey, server, it's client\n"));
    |TakeUntilNul(Request)| + 1
  }

  // ---------------------------------------------------------------------
  // The port argument
  // ---------------------------------------------------------------------

  /** The implicit conversion `in_port_t serverUDPPort = uintServerPortValue`:
      keeps the low 16 bits. */
  function ToInPort(value: ULong): (p: InPort)
  {
    value % 0x1_0000
  }

  datatype PortCheck = PortTooLarge | PortAccepted(port: InPort, notRecommended: bool)

  /** The range check on the port value (main.c:54-60). A value above 65535 is
      refused; every other value is accepted, arrives in the 16-bit port
      unchanged, and draws the warning exactly when it is below 49152. */
  function CheckPort(value: ULong): (c: PortCheck)
    ensures c.PortTooLarge? <==> value > MaxPort
    ensures c.PortAccepted? ==> c.port == value
    ensures c.PortAccepted? ==> (c.notRecommended <==> value < FirstDynamicPort)
  {
    if value > MaxPort then PortTooLarge
    else PortAccepted(ToInPort(value), value < FirstDynamicPort)
  }

  /** The range check refuses exactly the values that the 16-bit conversion
      would change: 65536, for one, would become port 0. */
  lemma PortCheckIsLossless(value: ULong)
    ensures CheckPort(value).PortAccepted? <==> ToInPort(value) == value
  {
  }

  // ---------------------------------------------------------------------
  // The send result
  // ---------------------------------------------------------------------

  datatype SendStatus = SendRefused | SentWhole | SentPartly(sent: int)

  /** How main reads what send returned (main.c:84-91): -1 aborts the session,
      any other count goes on, reported when it differs from the request's
      length. */
  function ClassifySend(sent: int, expected: nat): (s: SendStatus)
    ensures s.SendRefused? <==> sent == -1
    ensures s.SentWhole? <==> sent == expected
    ensures s.SentPartly? ==> s.sent == sent
  {
    if sent == -1 then SendRefused
    else if sent != expected then SentPartly(sent)
    else SentWhole
  }

  /** For every count send can return, a reported partial send is a short one. */
  lemma PartialSendIsShort(sent: int, expected: nat)
    requires sent == -1 || 0 <= sent <= expected
    ensures ClassifySend(sent, expected).SentPartly? <==> 0 <= sent < expected
  {
  }

  // ---------------------------------------------------------------------
  // The switch on timeoutRecv's result
  // ---------------------------------------------------------------------

  datatype Branch = ErrorExit | TimeoutExit | PrintReply

  /** `switch (bytesSendRecv)` (main.c:100-111): -2 and -1 have their own
      cases, every other value prints the reply. */
  function Dispatch(r: int): (b: Branch)
  {
    if r == -2 then ErrorExit
    else if r == -1 then TimeoutExit
    else PrintReply
  }

  /** Whatever select and recv return, the switch takes the branch that
      matches what happened: the error branch for a failure of either call,
      the timeout branch for a timeout, and prints for every datagram,
      including an empty one. */
  lemma DispatchFollowsMeaning(selectRet: int, recvRet: Option<int>, size: nat)
    requires Possible(selectRet, recvRet, size)
    ensures Dispatch(Encode(selectRet, recvRet)) == ErrorExit <==> Meaning(selectRet, recvRet, size).Failed?
    ensures Dispatch(Encode(selectRet, recvRet)) == TimeoutExit <==> Meaning(selectRet, recvRet, size).TimedOut?
    ensures Dispatch(Encode(selectRet, recvRet)) == PrintReply <==> Meaning(selectRet, recvRet, size).Received?
  {
    EncodingIsFaithful(selectRet, recvRet, size);
  }

  // ---------------------------------------------------------------------
  // The reply buffer and its print
  // ---------------------------------------------------------------------

  /** As the source passes it, recv may fill all 1024 bytes of `received`
      (main.c:97-99): a reply of 1024 or more bytes with no NUL among its
      first 1024 leaves the buffer without a terminator, and the `%s` print
      at main.c:109 reads past its end. */
  lemma FullReplyIsUnterminated(reply: seq<Byte>)
    requires |reply| >= ReplyCapacity
    requires forall i :: 0 <= i < ReplyCapacity ==> reply[i] != Nul
    ensures CString(AfterRecv(Zeros(ReplyCapacity), reply, ReplyCapacity)) == None
  {
  }

  /** As the source passes it, a reply shorter than the 1024-byte buffer
      still leaves a NUL after it, and the print shows the reply up to its
      first NUL. */
  lemma AsWrittenShortReply(reply: seq<Byte>)
    requires |reply| < ReplyCapacity
    ensures CString(AfterRecv(Zeros(ReplyCapacity), reply, ReplyCapacity)) == Some(TakeUntilNul(reply))
  {
    CStringAfterRecvIntoZeros(reply, ReplyCapacity, ReplyCapacity);
    assert reply[..Min(|reply|, ReplyCapacity)] == reply;
  }

  /** With ReceiveSize (one byte kept back), every reply leaves a NUL in the
      zero-filled buffer, and the print shows the received bytes up to the
      first NUL among them. */
  lemma ReplyIsTerminated(reply: seq<Byte>)
    ensures CString(AfterRecv(Zeros(ReplyCapacity), reply, ReceiveSize))
            == Some(TakeUntilNul(reply[..Min(|reply|, ReceiveSize)]))
  {
    CStringAfterRecvIntoZeros(reply, ReplyCapacity, ReceiveSize);
  }

  // ---------------------------------------------------------------------
  // The session
  // ---------------------------------------------------------------------

  /** Informational lines that do not end the session. */
  datatype Notice = PortNotRecommended | ConnectFailed | PartialSend(sent: int, expected: nat)

  /** How the session ends: the one line it prints last. */
  datatype Exit =
    | Usage
    | BadAddress
    | PortOutOfRange
    | SocketFailed
    | SendFailed
    | ReceiveFailed
    | ReplyTimedOut
    | ReplyPrinted(text: seq<Byte>)
    | ReplyOverread  // `%s` found no NUL in `received` and read past its end

  /** Whether the session got as far as asking for a socket. */
  predicate ReachesSocket(e: Exit)
  {
    !(e.Usage? || e.BadAddress? || e.PortOutOfRange?)
  }

  datatype Report = Report(notices: seq<Notice>, exit: Exit)

  /** The end of main (main.c:93-111): wait for the reply in the zero-filled
      buffer, passing `size` to timeoutRecv (1024 at main.c:99), and take the
      branch of the switch for what timeoutRecv returned (ghost `r`). The
      print reads past the buffer exactly when the reply filled all of it
      without a NUL, which only a size of 1024 allows. */
  method AwaitReply(fd: int, size: nat, reply: seq<Byte>) returns (exit: Exit, ghost r: int)
    requires 0 <= fd < FdSetSize
    requires size <= ReplyCapacity
    ensures r == -2 || r == -1 || 0 <= r <= size
    ensures exit.ReceiveFailed? <==> r == -2
    ensures exit.ReplyTimedOut? <==> r == -1
    ensures exit.ReplyPrinted? || exit.ReplyOverread? <==> r >= 0
    ensures r >= 0 ==> r == Min(|reply|, size)
    ensures exit.ReplyOverread? <==> r == ReplyCapacity && Nul !in reply[..r]
    ensures exit.ReplyPrinted? ==> exit.text == TakeUntilNul(reply[..r])
  {
    var received := new Byte[ReplyCapacity](_ => Nul);
    ghost var zeros := received[..];
    assert zeros == Zeros(ReplyCapacity);
    var result, _, _, selectRet, recvRet := TimeoutRecv(fd, received, size, ReplyTimeout, reply);
    r := result;
    EncodingIsFaithful(selectRet, recvRet, size);
    match Dispatch(result)
    case ErrorExit =>
      exit := ReceiveFailed;
    case TimeoutExit =>
      exit := ReplyTimedOut;
    case PrintReply =>
      PrintedReply(reply, size);
      match CString(received[..])
      case None =>
        exit := ReplyOverread;
      case Some(text) =>
        exit := ReplyPrinted(text);
  }

  /** The print of the zero-filled buffer after a receive of `size` bytes at
      most: it reads past the end exactly when the reply filled all 1024 bytes
      with no NUL among them, and otherwise shows the received bytes up to
      their first NUL. */
  lemma PrintedReply(reply: seq<Byte>, size: nat)
    requires size <= ReplyCapacity
    ensures CString(AfterRecv(Zeros(ReplyCapacity), reply, size)).None? <==>
              Min(|reply|, size) == ReplyCapacity && Nul !in reply[..Min(|reply|, size)]
    ensures CString(AfterRecv(Zeros(ReplyCapacity), reply, size)).Some? ==>
              CString(AfterRecv(Zeros(ReplyCapacity), reply, size)).value
              == TakeUntilNul(reply[..Min(|reply|, size)])
  {
    var n := Min(|reply|, size);
    if n < ReplyCapacity {
      CStringAfterRecvIntoZeros(reply, ReplyCapacity, size);
    } else {
      AfterRecvIntoZeros(reply, ReplyCapacity, size);
      assert AfterRecv(Zeros(ReplyCapacity), reply, size) == reply[..n];
      CStringIsTakeUntilNul(reply[..n]);
    }
  }

  /** Whether the notices report a partial send. */
  predicate ReportsPartialSend(notices: seq<Notice>)
  {
    exists k :: 0 <= k < |notices| && notices[k].PartialSend?
  }

  /** main. `argc` is the argument count, `addressParses` whether inet_pton
      returned 1 for the first argument, `portValue` what strtoul made of the
      second, and `reply` the datagram the server sends back, if recv gets to
      read it. The ghost results record what socket, connect, send and
      timeoutRecv returned, None for a call the run did not reach. */
  method RunClient(argc: int, addressParses: bool, portValue: ULong, reply: seq<Byte>)
    returns (report: Report, ghost socketRet: Option<int>, ghost connectRet: Option<int>,
             ghost sentRet: Option<int>, ghost waitRet: Option<int>)
    // argument, address and port checks, all before any socket is requested
    ensures argc != 3 ==> report.exit == Usage
    ensures argc == 3 && !addressParses ==> report.exit == BadAddress
    ensures argc == 3 && addressParses && portValue > MaxPort ==> report.exit == PortOutOfRange
    ensures socketRet.Some? <==> argc == 3 && addressParses && portValue <= MaxPort
    ensures ReachesSocket(report.exit) <==> socketRet.Some?
    ensures PortNotRecommended in report.notices <==>
              socketRet.Some? && portValue < FirstDynamicPort
    // socket: -1 ends the run
    ensures socketRet.Some? ==> (report.exit.SocketFailed? <==> socketRet.value == -1)
    ensures connectRet.Some? <==> socketRet.Some? && socketRet.value != -1
    // connect: a failure is reported, and the run goes on to send
    ensures ConnectFailed in report.notices <==> connectRet == Some(-1)
    ensures sentRet.Some? <==> connectRet.Some?
    // send: -1 ends the run, any other count differing from the request's length is reported
    ensures sentRet.Some? ==> sentRet.value == -1 || 0 <= sentRet.value <= |Request|
    ensures report.exit.SendFailed? <==> sentRet == Some(-1)
    ensures ReportsPartialSend(report.notices) <==>
              sentRet.Some? && sentRet.value != -1 && sentRet.value != |Request|
    ensures forall k :: 0 <= k < |report.notices| && report.notices[k].PartialSend? ==>
              report.notices[k].sent == sentRet.value < report.notices[k].expected == |Request|
    // each notice at most once, in the order main prints them
    ensures report.notices ==
              (if socketRet.Some? && portValue < FirstDynamicPort then [PortNotRecommended] else []) +
              (if connectRet == Some(-1) then [ConnectFailed] else []) +
              (if ReportsPartialSend(report.notices) then [PartialSend(sentRet.value, |Request|)] else [])
    // timeoutRecv: -2 is the error exit, -1 the timeout exit, anything else prints
    ensures waitRet.Some? <==> sentRet.Some? && sentRet.value != -1
    ensures waitRet.Some? ==> waitRet.value == -2 || waitRet.value == -1 || 0 <= waitRet.value <= ReceiveSize
    ensures waitRet.Some? ==> (report.exit.ReceiveFailed? <==> waitRet.value == -2)
    ensures waitRet.Some? ==> (report.exit.ReplyTimedOut? <==> waitRet.value == -1)
    ensures waitRet.Some? ==> (report.exit.ReplyPrinted? <==> waitRet.value >= 0)
    ensures !report.exit.ReplyOverread?
    ensures report.exit.ReplyPrinted? ==>
              waitRet.Some? && waitRet.value == Min(|reply|, ReceiveSize) &&
              report.exit.text == TakeUntilNul(reply[..waitRet.value])
  {
    socketRet, connectRet, sentRet, waitRet := None, None, None, None;
    if argc != 3 {
      report := Report([], Usage);
      return;
    }
    if !addressParses {
      report := Report([], BadAddress);
      return;
    }
    var check := CheckPort(portValue);
    if check.PortTooLarge? {
      report := Report([], PortOutOfRange);
      return;
    }
    var notices := if check.notRecommended then [PortNotRecommended] else [];

    var fd := Socket();
    socketRet := Some(fd);
    if fd == -1 {
      report := Report(notices, SocketFailed);
      return;
    }
    var connected := Connect(fd);
    connectRet := Some(connected);
    if connected == -1 {
      notices := notices + [ConnectFailed];
    }
    assert !ReportsPartialSend(notices);

    var sent := Send(fd, Request);
    sentRet := Some(sent);
    var status := ClassifySend(sent, RequestLength());
    if status.SendRefused? {
      report := Report(notices, SendFailed);
      return;
    }
    if status.SentPartly? {
      PartialSendIsShort(sent, RequestLength());
      notices := notices + [PartialSend(status.sent, RequestLength())];
      assert notices[|notices| - 1].PartialSend?;
    }

    var exit, r := AwaitReply(fd, ReceiveSize, reply);
    waitRet := Some(r);
    report := Report(notices, exit);
  }
}
