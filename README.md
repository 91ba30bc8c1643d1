# A verified model of a one-shot UDP client

The client (`main.c`) takes an IPv4 address and a port. It connects a UDP
socket to that endpoint and sends one fixed request. It then waits up to ten
seconds for one reply and prints it. The waiting is done by `timeoutRecv`.
That function calls `select` on the one socket and then `recv` once. It
reports the result on a single signed integer: -1 for a timeout, -2 for an
error of either call, and the byte count otherwise. An empty datagram (0)
therefore stays distinct from a timeout.

This project models the decision logic around the system calls. The value each
call returns is chosen nondeterministically within the range POSIX allows. Every
property below holds for every behaviour of the kernel and the network, within
two assumptions listed under "Left out": `socket` returns a descriptor below
`FD_SETSIZE`, and a failed `recv` leaves the buffer untouched.

- `platform.dfy` (module `Platform`) models the library and kernel calls:
  `FD_ZERO` and `FD_SET` on an in-place descriptor set, `socket`, `connect`,
  `send`, `select` and `recv`. `recv` writes a prefix of the caller's array in
  place. The module also models what `strlen` and `printf("%s")` read from a
  byte buffer.
- `bounded_receive.dfy` (module `BoundedReceive`) models `timeoutRecv`. It
  holds the integer encoding (`Encode`), a reference meaning of the two calls'
  results (`Meaning`, one of timed out, failed with a cause, received n bytes),
  and the method itself.
- `client.dfy` (module `Client`) models `main`. It covers the argument count,
  the address and port checks, the 16-bit port conversion, the send-count
  check, the `switch` on `timeoutRecv`'s result and the print of the
  zero-filled reply buffer. The wait and the switch are the method
  `AwaitReply`; the whole session is the method `RunClient`.

Three behaviours of the code the model keeps as written:

- No path ever closes the socket, so the model has no release step.
- A failure of `select` and a failure of `recv` both become -2. The caller
  cannot tell them apart (`EncodingIsFaithful` loses only the cause).
- A partial send is reported when the count differs from `strlen(message) + 1`.
  For every count `send` can return, that means a shorter count
  (`PartialSendIsShort`).

## Model

| member | source | states |
|---|---|---|
| `Platform.FdZero` | main.c:20-21 | every descriptor of the set is cleared, whatever it held before |
| `Platform.FdSet` | main.c:22-23 | the socket's descriptor is marked and no other entry changes |
| `Platform.CountMarkedSingleton` | main.c:15-24 | a set that marks exactly the socket counts one descriptor, so `select` on it reports at most one ready |
| `Platform.Select` | main.c:24 | `select` returns -1, 0, or at most the number of descriptors watched below `nfds` |
| `Platform.Recv` | main.c:31 | `recv` returns -1 with the buffer untouched, or writes the datagram truncated to `size` into the front of the buffer and returns its length |
| `Platform.AfterRecv` | main.c:31 | after a receive, the first min(length, size) bytes are the datagram's and every later byte is unchanged |
| `Platform.Socket` | main.c:64-68 | `socket` gives -1 or a descriptor that fits in an `fd_set` |
| `Platform.Connect` | main.c:78-80 | `connect` gives 0 or -1 |
| `Platform.Send` | main.c:84 | `send` gives -1 or a count no larger than the message |
| `Platform.TakeUntilNul` | main.c:84 | `strlen`: the prefix before the first NUL, with no NUL in it, followed by a NUL unless it is the whole buffer |
| `Platform.Ascii` | main.c:82 | the request text as bytes, of the same length and with no NUL |
| `Platform.TakeUntilNulOfTerminated` | main.c:82-84 | a NUL-terminated array's `strlen` is its length before the terminator |
| `Platform.CString` | main.c:109 | what `%s` prints is the bytes before the first NUL, and it is None (a read past the end) exactly when the buffer holds no NUL |
| `Platform.AfterRecvIntoZeros` | main.c:97-99 | received into a zero-filled buffer, the datagram's kept prefix is followed only by zeros |
| `Platform.CStringAfterRecvIntoZeros` | main.c:97-109 | when a receive leaves at least one byte of the zero-filled buffer unwritten, the print shows the received bytes up to their first NUL |
| `Platform.CStringOfPadded` | main.c:97-109 | bytes followed by at least one NUL print as their part before the first NUL |
| `Platform.CStringIsTakeUntilNul` | main.c:109 | `%s` and `strlen` read the same bytes: the print is `strlen`'s prefix whenever the buffer holds a NUL, and reads past the end exactly when it holds none |
| `BoundedReceive.EncodingIsFaithful` | main.c:10-35 | for `Encode` (the returns at main.c:26-35): -1 iff timed out, -2 iff either call failed, n >= 0 iff n bytes were received; every result lies in {-2, -1} or [0, size] |
| `BoundedReceive.EmptyDatagramIsNotTimeout` | main.c:26-35 | in `Encode` (main.c:26-35), an empty datagram after readiness gives 0, distinct from the timeout and the error values |
| `BoundedReceive.TimeoutRecv` | main.c:14-36 | `select` is given `socketFD + 1` and a set holding exactly `socketFD`; `recv` is called iff `select` reported readiness; the result is `Encode` of the two calls; the buffer is untouched on a negative result and holds the datagram's prefix on success |
| `Client.RequestLength` | main.c:82-84 | `strlen(message) + 1` is the whole message array, 26 bytes |
| `Client.CheckPort` | main.c:53-61 | a value above 65535 is refused; any other value reaches the 16-bit port unchanged and is flagged iff it is below 49152 |
| `Client.PortCheckIsLossless` | main.c:54-60 | for every value, the range check accepts it iff the conversion to `in_port_t` (`ToInPort`, main.c:60) keeps it unchanged |
| `Client.ClassifySend` | main.c:84-91 | -1 aborts, a count equal to the request length is a whole send, and any other count is a partial send that goes on |
| `Client.PartialSendIsShort` | main.c:84-91 | for every count `send` can return, a partial send is one strictly shorter than the request |
| `Client.DispatchFollowsMeaning` | main.c:99-111 | the `switch` (`Dispatch`, main.c:100-111) applied to `Encode` takes the error branch iff a call failed, the timeout branch iff select timed out, and prints iff a datagram (even an empty one) was received |
| `Client.FullReplyIsUnterminated` | main.c:97-109 | as written, a reply of 1024 or more non-NUL bytes leaves the buffer with no NUL, and the print reads past its end |
| `Client.AsWrittenShortReply` | main.c:97-109 | as written, every reply shorter than 1024 bytes leaves a NUL after it, and the print shows the reply up to its first NUL |
| `Client.ReplyIsTerminated` | main.c:97-109 | with 1023 passed as the size, every reply leaves a NUL, and the print shows the received bytes up to their first NUL |
| `Client.AwaitReply` | main.c:93-111 | with the size passed at main.c:99 (1024 as written, 1023 in `RunClient`), the wait's result is -2, -1 or a count up to the size; the switch (`Dispatch`) ends in the error exit iff it is -2, the timeout exit iff it is -1, and prints iff it is a count, which is then min(reply length, size); the print reads past the buffer iff the count is the full 1024 bytes with no NUL among them, and otherwise shows the received bytes up to their first NUL |
| `Client.PrintedReply` | main.c:97-109 | for any size up to 1024, the print of the zero-filled buffer reads past its end iff the receive filled all 1024 bytes with no NUL, and otherwise shows the received bytes up to their first NUL |
| `Client.RunClient` | main.c:38-112 | a wrong argument count, a bad address or a port above 65535 ends the run before any socket is requested; the port warning appears iff the run goes on with a port below 49152; socket returning -1 ends the run; connect is reached iff socket succeeded, its failure is reported iff it returned -1, and the run goes on to send either way; send returning -1 ends the run; a partial-send notice appears iff the count is neither -1 nor the request's 26 bytes, and it is always shorter; the wait is reached iff send did not return -1, and -2, -1 and a count end in the error exit, the timeout exit and the printed reply respectively; the notices are exactly, in this order and at most once each, the port warning, the connect failure and the partial send, each present iff its condition holds; with 1023 passed to the wait, the print never reads past the buffer |

## Left out

- Address and port text: `inet_pton` and `strtoul` are library calls. Their results are inputs to `RunClient` (whether the address parsed, and the `unsigned long` port value). `strtoul`'s end pointer and `errno` are not checked by the code either.
- `htons` byte order (main.c:61) is a platform macro and is not modelled. The port is kept in host order.
- Message text: warnings and the final line become `Notice` and `Exit` values, without their wording. The usage line's `argv[0]` is not modelled.
- Progress lines: "sending" (main.c:83), "message sent" (main.c:89) and "waiting" (main.c:98) are console output only and have no counterpart in the model.
- Timing: the ten-second budget is passed to `select` as a value. Blocking, elapsed time, and `select` rewriting its `timeval` and read set are not modelled. The code never reads either after the call.
- Connected-socket filtering and asynchronous ICMP errors are kernel behaviour. They show up only as the nondeterministic results of `select` and `recv`.
- Platform.Socket: descriptors at or above `FD_SETSIZE` are not modelled, because `FD_SET` on them is undefined. A freshly started client gets the lowest free descriptor.
- Platform.Recv: a failed `recv` is taken to leave the buffer untouched. POSIX does not promise this, and the code never reads the buffer after an error.
- Client.RunClient: the session passes 1023 to `AwaitReply` where the code passes 1024 (see Findings). `AwaitReply` takes the size as a parameter and states what 1024 does: a reply of 1024 or more non-NUL bytes makes the final print read out of bounds.

## Findings

| source | as written | input that shows it | evidently intended | confidence | as-written member | corrected member |
|---|---|---|---|---|---|---|
| main.c:97-109 | `timeoutRecv` gets the full 1024-byte size of `received`, so `recv` may fill every byte, including the one the zero fill was meant to keep as the terminator | a reply of 1024 bytes or more with no NUL among its first 1024 bytes; `%s` then reads past `received` | pass 1023 (the buffer size minus one) so the reply always ends in a NUL | high; not executed | `Client.FullReplyIsUnterminated` | `Client.ReplyIsTerminated` |
