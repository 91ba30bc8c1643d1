/** The C library and kernel calls the UDP client makes (main.c).

    Each call's return value is chosen nondeterministically, within the range
    POSIX allows, so that every property proved about the callers holds for
    every behaviour of the kernel and of the network, within two assumptions:
    socket returns a descriptor below FD_SETSIZE, and a failed recv leaves the
    buffer untouched. The bytes a successful
    `recv` delivers are given by the caller as the datagram at the head of the
    socket's queue. */
module Platform {

  datatype Option<T> = None | Some(value: T)

  /** One octet of a `char` buffer. */
  type Byte = b: int | 0 <= b < 256

  /** The byte that terminates a C string. */
  const Nul: Byte := 0

  /** Number of descriptors an `fd_set` holds (FD_SETSIZE). */
  const FdSetSize: nat := 1024

  /** A `struct timeval`: whole seconds and microseconds. */
  datatype TimeVal = TimeVal(sec: int, usec: int)

  function Min(a: int, b: int): (m: int)
  {
    if a <= b then a else b
  }

  /** A zero-filled buffer of `n` bytes. */
  function Zeros(n: nat): (z: seq<Byte>)
    ensures |z| == n && forall i :: 0 <= i < n ==> z[i] == Nul
  {
    seq(n, _ => Nul)
  }

  // ---------------------------------------------------------------------
  // Descriptor sets: FD_ZERO, FD_SET and what select may report
  // ---------------------------------------------------------------------

  /** Number of descriptors marked in (a prefix of) a descriptor set. */
  function CountMarked(s: seq<bool>): (n: nat)
  {
    if s == [] then 0 else (if s[0] then 1 else 0) + CountMarked(s[1..])
  }

  lemma {:induction false} CountMarkedNone(s: seq<bool>)
    requires forall i :: 0 <= i < |s| ==> !s[i]
    ensures CountMarked(s) == 0
  {
    if s != [] {
      CountMarkedNone(s[1..]);
    }
  }

  /** A set that marks exactly one descriptor counts one. */
  lemma {:induction false} CountMarkedSingleton(s: seq<bool>, fd: int)
    requires 0 <= fd < |s|
    requires forall i :: 0 <= i < |s| ==> (s[i] <==> i == fd)
    ensures CountMarked(s) == 1
  {
    if fd == 0 {
      CountMarkedNone(s[1..]);
    } else {
      CountMarkedSingleton(s[1..], fd - 1);
    }
  }

  /** FD_ZERO: clears every descriptor of the set, whatever it held. */
  method FdZero(fds: array<bool>)
    modifies fds
    ensures forall i :: 0 <= i < fds.Length ==> !fds[i]
  {
    for i := 0 to fds.Length
      invariant forall j :: 0 <= j < i ==> !fds[j]
    {
      fds[i] := false;
    }
  }

  /** FD_SET: marks descriptor `fd` and leaves the others as they were. */
  method FdSet(fd: int, fds: array<bool>)
    requires 0 <= fd < fds.Length
    modifies fds
    ensures fds[fd]
    ensures forall i :: 0 <= i < fds.Length && i != fd ==> fds[i] == old(fds[i])
  {
    fds[fd] := true;
  }

  // ---------------------------------------------------------------------
  // The socket calls
  // ---------------------------------------------------------------------

  /** socket(AF_INET, SOCK_DGRAM, 0): -1 on failure, otherwise a descriptor. */
  method Socket() returns (fd: int)
    ensures fd == -1 || 0 <= fd < FdSetSize
  {
    fd :| -1 <= fd < FdSetSize;
  }

  /** connect on a datagram socket: 0 on success, -1 on failure. */
  method Connect(fd: int) returns (status: int)
    ensures status == -1 || status == 0
  {
    status :| -1 <= status <= 0;
  }

  /** send: -1 on failure, otherwise how many bytes of `message` went out. */
  method Send(fd: int, message: seq<Byte>) returns (sent: int)
    ensures sent == -1 || 0 <= sent <= |message|
  {
    sent :| -1 <= sent <= |message|;
  }

  /** select over the read set only: -1 on failure, 0 on timeout, otherwise the
      number of ready descriptors, which cannot exceed the number watched among
      the first `nfds`. */
  method Select(nfds: int, readSet: array<bool>, timeout: TimeVal) returns (ready: int)
    requires 0 <= nfds <= readSet.Length
    ensures -1 <= ready <= CountMarked(readSet[..nfds])
  {
    ready :| -1 <= ready <= CountMarked(readSet[..nfds]);
  }

  /** The buffer after recv of `datagram` into its first `size` bytes: a
      datagram longer than `size` is truncated, the rest of the buffer is kept. */
  function AfterRecv(before: seq<Byte>, datagram: seq<Byte>, size: nat): (after: seq<Byte>)
    requires size <= |before|
    ensures |after| == |before|
    ensures forall i :: 0 <= i < Min(|datagram|, size) ==> after[i] == datagram[i]
    ensures forall i :: Min(|datagram|, size) <= i < |before| ==> after[i] == before[i]
  {
    var n := Min(|datagram|, size);
    datagram[..n] + before[n..]
  }

  /** Received into a zero-filled buffer, a datagram is followed by zeros. */
  lemma AfterRecvIntoZeros(datagram: seq<Byte>, capacity: nat, size: nat)
    requires size <= capacity
    ensures AfterRecv(Zeros(capacity), datagram, size)
            == datagram[..Min(|datagram|, size)] + Zeros(capacity - Min(|datagram|, size))
  {
    var n := Min(|datagram|, size);
    var after := AfterRecv(Zeros(capacity), datagram, size);
    var padded := datagram[..n] + Zeros(capacity - n);
    assert |after| == |padded|;
    forall i | 0 <= i < |after|
      ensures after[i] == padded[i]
    {
      if i < n {
        assert padded[i] == datagram[i];
      } else {
        assert padded[i] == Zeros(capacity - n)[i - n];
      }
    }
  }

  /** recv(fd, buffer, size, 0): -1 on failure with the buffer untouched;
      otherwise the datagram, truncated to `size`, is written to the front of
      the buffer and its length returned. */
  method Recv(fd: int, buffer: array<Byte>, size: nat, datagram: seq<Byte>) returns (n: int)
    requires size <= buffer.Length
    modifies buffer
    ensures n == -1 || n == Min(|datagram|, size)
    ensures n == -1 ==> buffer[..] == old(buffer[..])
    ensures n != -1 ==> buffer[..] == AfterRecv(old(buffer[..]), datagram, size)
  {
    var fails: bool :| true;
    if fails {
      return -1;
    }
    n := Min(|datagram|, size);
    for i := 0 to n
      invariant forall j :: 0 <= j < i ==> buffer[j] == datagram[j]
      invariant forall j :: i <= j < buffer.Length ==> buffer[j] == old(buffer[j])
    {
      buffer[i] := datagram[i];
    }
    assert buffer[..] == AfterRecv(old(buffer[..]), datagram, size);
  }

  // ---------------------------------------------------------------------
  // C strings: strlen and what printf("%s") reads
  // ---------------------------------------------------------------------

  /** The bytes before the first NUL (all of `s` when it holds none). */
  function TakeUntilNul(s: seq<Byte>): (t: seq<Byte>)
    ensures |t| <= |s| && t == s[..|t|]
    ensures Nul !in t
    ensures |t| < |s| ==> s[|t|] == Nul
  {
    if s == [] || s[0] == Nul then [] else [s[0]] + TakeUntilNul(s[1..])
  }

  /** What printf("%s", buf) prints from the array `s`: the bytes before the
      first NUL, or None when `s` holds no NUL and the read runs past its end. */
  function CString(s: seq<Byte>): (r: Option<seq<Byte>>)
    ensures r.Some? ==> |r.value| < |s| && r.value == s[..|r.value|] && s[|r.value|] == Nul
    ensures r.Some? ==> Nul !in r.value
    ensures r.None? <==> Nul !in s
  {
    if s == [] then None
    else if s[0] == Nul then Some([])
    else match CString(s[1..])
      case None => None
      case Some(t) => Some([s[0]] + t)
  }

  /** Bytes followed by at least one NUL print as their part before the first NUL. */
  lemma {:induction false} CStringOfPadded(t: seq<Byte>, k: nat)
    requires k >= 1
    ensures CString(t + Zeros(k)) == Some(TakeUntilNul(t))
  {
    if t == [] {
      assert (t + Zeros(k))[0] == Nul;
    } else if t[0] == Nul {
      assert (t + Zeros(k))[0] == Nul;
    } else {
      CStringOfPadded(t[1..], k);
      assert (t + Zeros(k))[1..] == t[1..] + Zeros(k);
    }
  }

  /** A zero-filled buffer that a receive did not fill up still ends in a
      NUL, so it prints as the received bytes up to their first NUL. */
  lemma CStringAfterRecvIntoZeros(datagram: seq<Byte>, capacity: nat, size: nat)
    requires size <= capacity
    requires Min(|datagram|, size) < capacity
    ensures CString(AfterRecv(Zeros(capacity), datagram, size))
            == Some(TakeUntilNul(datagram[..Min(|datagram|, size)]))
  {
    var n := Min(|datagram|, size);
    AfterRecvIntoZeros(datagram, capacity, size);
    CStringOfPadded(datagram[..n], capacity - n);
  }

  /** printf("%s") and strlen read the same bytes: whenever the buffer holds
      a NUL the print is strlen's prefix, and otherwise it reads past the end. */
  lemma {:induction false} CStringIsTakeUntilNul(s: seq<Byte>)
    ensures CString(s) == if Nul in s then Some(TakeUntilNul(s)) else None
  {
    if s != [] && s[0] != Nul {
      CStringIsTakeUntilNul(s[1..]);
      assert Nul in s <==> Nul in s[1..] by {
        assert s == [s[0]] + s[1..];
      }
    }
  }

  /** Text whose bytes are all non-NUL ASCII, as bytes. */
  function Ascii(s: string): (b: seq<Byte>)
    requires forall i :: 0 <= i < |s| ==> 0 < s[i] as int < 128
    ensures |b| == |s| && Nul !in b
    ensures forall i :: 0 <= i < |s| ==> b[i] == s[i] as int
  {
    seq(|s|, i requires 0 <= i < |s| => s[i] as int as Byte)
  }

  /** strlen of a NUL-terminated string is the length before the terminator. */
  lemma {:induction false} TakeUntilNulOfTerminated(t: seq<Byte>)
    requires Nul !in t
    ensures TakeUntilNul(t + [Nul]) == t
  {
    if t != [] {
      TakeUntilNulOfTerminated(t[1..]);
      assert (t + [Nul])[1..] == t[1..] + [Nul];
    }
  }
}
