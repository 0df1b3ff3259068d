/** The Windows-only probe that reads TCP_INFO_v0 for the socket behind a
    `FileDescriptor`: the early returns on a missing descriptor or another
    operating system, the choice of the SOCKET candidate from the
    descriptor's `handle` and `fd` fields, the `getsockopt(SO_TYPE)` check
    that the candidate is a stream socket, and the `WSAIoctl(SIO_TCP_INFO)`
    query. The Winsock calls are not executed: what each returns, or that it
    throws, is an input, and the calls made are recorded in order. */
module Ping {
  import opened JavaLang
  import opened Layouts
  import opened TcpInfo

  /** Winsock constants. `0xD8000027` is a Java `int` literal, so it
      denotes the negative `int` with that bit pattern. */
  const SOL_SOCKET: Int32 := 0xFFFF
  const SO_TYPE: Int32 := 0x1008
  const SOCK_STREAM: Int32 := 1
  const SIO_TCP_INFO: Int32 := ToInt32(0xD800_0027)

  /** The 32-bit pattern passed as the control code is the documented one. */
  lemma {:induction false} ControlCodeBits()
    ensures SIO_TCP_INFO < 0
    ensures Unsigned(SIO_TCP_INFO, TWO32) == 0xD800_0027
  {
    assert 0xD800_0027 % TWO32 == 0xD800_0027;
  }

  // ---------------------------------------------------------------------
  // isWindows
  // ---------------------------------------------------------------------

  /** `System.getProperty("os.name", "")`, lower-cased, contains "windows";
      such a name is set and has at least the seven letters of "windows". */
  function IsWindows(osName: Option<string>): (b: bool)
    ensures b ==> osName.Some? && |osName.value| >= 7
  {
    var l := Lower(osName.GetOr(""));
    assert Contains(l, "windows") ==> |l| >= 7;
    Contains(l, "windows")
  }

  /** The test ignores the case of the property, and an unset property is
      not Windows. */
  lemma {:induction false} IsWindowsIgnoresCase(os: string)
    ensures IsWindows(Some(Lower(os))) == IsWindows(Some(os))
    ensures !IsWindows(None)
  {
    LowerIdempotent(os);
  }

  /** Every name that starts with "Windows" ("Windows 10", "Windows Server
      2022", ...) is accepted. */
  lemma {:induction false} WindowsNameAccepted(name: string)
    requires StartsWith(name, "Windows")
    ensures IsWindows(Some(name))
  {
    var l := Lower(name);
    assert name[..7] == "Windows";
    assert name[0] == 'W' && name[1] == 'i' && name[2] == 'n' && name[3] == 'd';
    assert name[4] == 'o' && name[5] == 'w' && name[6] == 's';
    assert l[0] == 'w' && l[1] == 'i' && l[2] == 'n' && l[3] == 'd';
    assert l[4] == 'o' && l[5] == 'w' && l[6] == 's';
    assert l[..7] == "windows";
    assert OccursAt(l, "windows", 0);
  }

  lemma {:induction false} LinuxNameRejected()
    ensures !IsWindows(Some("Linux"))
  {
    assert |Lower("Linux")| == 5;
  }

  // ---------------------------------------------------------------------
  // getSocketCandidate
  // ---------------------------------------------------------------------

  /** What reading `FileDescriptor.handle` by reflection gives: the JDK may
      lack the field, or reading it may throw. */
  datatype HandleField = NoHandleField | HandleValue(handle: Int64) | HandleUnreadable

  /** What reading `FileDescriptor.fd` by reflection gives. */
  datatype FdField = FdValue(fd: Int32) | FdUnreadable

  datatype FileDescriptor = FileDescriptor(handle: HandleField, fd: FdField)

  /** A positive handle is the candidate; otherwise a non-negative `fd`,
      widened as unsigned; any other case, and any exception while reading
      the fields, gives -1. */
  function GetSocketCandidate(d: FileDescriptor): (c: Int64)
    ensures c >= -1
    ensures d.handle.HandleValue? && d.handle.handle > 0 ==> c == d.handle.handle
    ensures d.handle.HandleUnreadable? ==> c == -1
    ensures d.handle.NoHandleField? || (d.handle.HandleValue? && d.handle.handle <= 0) ==>
      c == (if d.fd.FdValue? && d.fd.fd >= 0 then d.fd.fd else -1)
  {
    if d.handle.HandleUnreadable? then -1
    else if d.handle.HandleValue? && d.handle.handle > 0 then d.handle.handle
    else
      match d.fd
      case FdUnreadable => -1
      case FdValue(raw) => if raw >= 0 then Unsigned(raw, TWO32) else -1
  }

  /** A candidate other than -1 is a positive handle or a non-negative fd. */
  lemma {:induction false} CandidateSource(d: FileDescriptor)
    ensures GetSocketCandidate(d) != -1 <==>
      (d.handle.HandleValue? && d.handle.handle > 0) ||
      ((d.handle.NoHandleField? || (d.handle.HandleValue? && d.handle.handle <= 0)) &&
       d.fd.FdValue? && d.fd.fd >= 0)
  {
  }

  // ---------------------------------------------------------------------
  // isWinsockStreamSocket
  // ---------------------------------------------------------------------

  /** The 4 option bytes `getsockopt` fills in. */
  type OptBytes = s: seq<Octet> | |s| == 4 witness [0, 0, 0, 0]

  /** Four little-endian bytes read 1 exactly when they are 1, 0, 0, 0. */
  lemma {:induction false} LittleEndianOne(opt: OptBytes)
    ensures Pow256(4) == TWO32
    ensures LittleEndian(opt) == 1 <==> opt == [1, 0, 0, 0]
  {
    assert Pow256(4) == TWO32;
    if LittleEndian(opt) == 1 {
      BytesOfLittleEndian(opt);
      assert ToLittleEndian(1, 4) == [1, 0, 0, 0];
    }
    assert LittleEndian([1, 0, 0, 0]) == 1;
  }

  /** The `SO_TYPE` value is read as a little-endian `int`. */
  function SoType(opt: OptBytes): (t: Int32)
    ensures t == SOCK_STREAM <==> opt == [1, 0, 0, 0]
  {
    LittleEndianOne(opt);
    Signed(LittleEndian(opt), TWO32)
  }

  /** `getsockopt` returned 0 and the option reads `SOCK_STREAM`. */
  function IsWinsockStreamSocket(rc: Int32, opt: OptBytes): (b: bool)
    ensures b <==> rc == 0 && opt == [1, 0, 0, 0]
  {
    rc == 0 && SoType(opt) == SOCK_STREAM
  }

  // ---------------------------------------------------------------------
  // tryGetTcpInfoV0
  // ---------------------------------------------------------------------

  /** The memory of the `TcpInfoV0` structure after the query. */
  type StructMemory = s: seq<Octet> | |s| == StructSize witness seq(88, _ => 0)

  /** What `getsockopt` did: returned a code with the option bytes, or threw
      (a missing JNA or a failure to load ws2_32 surfaces here first). */
  datatype SockOptResult = SockOptReturned(rc: Int32, opt: OptBytes) | SockOptThrew

  /** What `WSAIoctl` did: returned a code with the structure's memory, or
      threw (as may the allocation of its buffers). */
  datatype IoctlResult = IoctlReturned(rc: Int32, out: StructMemory) | IoctlThrew

  /** The native layer's answers for one probe. */
  datatype Native = Native(sockOpt: SockOptResult, ioctl: IoctlResult)

  /** A native call, with the arguments the probe passes. */
  datatype NativeCall =
    | GetSockOpt(s: Int64, level: Int32, optName: Int32, optLen: Int32)
    | WsaIoctl(s: Int64, code: Int32, input: seq<Octet>, inLen: Int32, outLen: nat)
    | WsaGetLastError

  datatype Outcome = Returned(info: Option<TcpInfoV0>) | Thrown

  /** The outcome of a probe and the native calls it reached, in order. An
      entry means the probe got as far as that call: a throw while its
      buffers are allocated, before the native code runs, is recorded the
      same way as a throw from the call itself. */
  datatype Trace = Trace(outcome: Outcome, calls: seq<NativeCall>)

  /** The body of the `try` block: query `SIO_TCP_INFO` with a 4-byte input
      selecting version 0 and the structure as output; a nonzero code asks for
      the last error and gives null; code 0 decodes the structure; anything
      thrown gives null. */
  function QueryTcpInfo(s: Int64, io: IoctlResult): (t: Trace)
    ensures t.outcome.Returned?
    ensures |t.calls| >= 1 && t.calls[0] == WsaIoctl(s, SIO_TCP_INFO, [0, 0, 0, 0], 4, StructSize)
    ensures t.outcome.info.Some? <==> io.IoctlReturned? && io.rc == 0
    ensures t.outcome.info.Some? ==> t.outcome.info.value == Decode(io.out)
  {
    var query := WsaIoctl(s, SIO_TCP_INFO, [0, 0, 0, 0], 4, StructSize);
    match io
    case IoctlThrew => Trace(Returned(None), [query])
    case IoctlReturned(rc, out) =>
      if rc != 0 then Trace(Returned(None), [query, WsaGetLastError])
      else Trace(Returned(Some(Decode(out))), [query])
  }

  /** The guards before the stream check: a descriptor, Windows, and a candidate. */
  predicate ReachesStreamCheck(fdObj: Option<FileDescriptor>, osName: Option<string>) {
    fdObj.Some? && IsWindows(osName) && GetSocketCandidate(fdObj.value) != -1
  }

  /** Every guard before the query passes. */
  predicate ReachesQuery(fdObj: Option<FileDescriptor>, osName: Option<string>, n: Native) {
    ReachesStreamCheck(fdObj, osName) &&
    n.sockOpt.SockOptReturned? && IsWinsockStreamSocket(n.sockOpt.rc, n.sockOpt.opt)
  }

  /** The probe, with the stream check inside the `try` when
      `streamCheckCaught` holds and before it otherwise. */
  function Probe(fdObj: Option<FileDescriptor>, osName: Option<string>, n: Native,
                 streamCheckCaught: bool): Trace
  {
    if fdObj.None? || !IsWindows(osName) then Trace(Returned(None), [])
    else
      var c := GetSocketCandidate(fdObj.value);
      if c == -1 then Trace(Returned(None), [])
      else
        var check := GetSockOpt(c, SOL_SOCKET, SO_TYPE, 4);
        match n.sockOpt
        case SockOptThrew => Trace(if streamCheckCaught then Returned(None) else Thrown, [check])
        case SockOptReturned(rc, opt) =>
          if !IsWinsockStreamSocket(rc, opt) then Trace(Returned(None), [check])
          else
            var q := QueryTcpInfo(c, n.ioctl);
            Trace(q.outcome, [check] + q.calls)
  }

  /** `tryGetTcpInfoV0` as written: the stream check runs outside the
      `try`, so a throw from `getsockopt` escapes. */
  function TryGetTcpInfoV0AsWritten(fdObj: Option<FileDescriptor>, osName: Option<string>, n: Native): (t: Trace)
    ensures t.outcome.Thrown? <==> ReachesStreamCheck(fdObj, osName) && n.sockOpt.SockOptThrew?
    ensures !t.outcome.Thrown? ==> t == TryGetTcpInfoV0(fdObj, osName, n)
  {
    Probe(fdObj, osName, n, false)
  }

  /** `tryGetTcpInfoV0` as documented: null unless every step succeeds, and
      never a throw. */
  function TryGetTcpInfoV0(fdObj: Option<FileDescriptor>, osName: Option<string>, n: Native): (t: Trace)
    ensures t.outcome.Returned?
    ensures t.outcome.info.Some? <==>
      ReachesQuery(fdObj, osName, n) && n.ioctl.IoctlReturned? && n.ioctl.rc == 0
    ensures t.outcome.info.Some? ==> t.outcome.info.value == Decode(n.ioctl.out)
  {
    Probe(fdObj, osName, n, true)
  }

  /** A missing descriptor, another operating system or no candidate gives
      null before any native call. */
  lemma {:induction false} EarlyExitsCallNothing(fdObj: Option<FileDescriptor>, osName: Option<string>, n: Native)
    requires !ReachesStreamCheck(fdObj, osName)
    ensures TryGetTcpInfoV0(fdObj, osName, n) == Trace(Returned(None), [])
    ensures TryGetTcpInfoV0AsWritten(fdObj, osName, n) == Trace(Returned(None), [])
  {
  }

  /** A failed `SO_TYPE` check gives null after `getsockopt` alone. */
  lemma {:induction false} FailedStreamCheckSkipsIoctl(fdObj: Option<FileDescriptor>, osName: Option<string>, n: Native)
    requires ReachesStreamCheck(fdObj, osName) && n.sockOpt.SockOptReturned?
    requires !IsWinsockStreamSocket(n.sockOpt.rc, n.sockOpt.opt)
    ensures TryGetTcpInfoV0(fdObj, osName, n) ==
      Trace(Returned(None), [GetSockOpt(GetSocketCandidate(fdObj.value), SOL_SOCKET, SO_TYPE, 4)])
  {
  }

  /** Past the guards, the probe asks for `SO_TYPE` of the candidate and
      then issues the query on the same candidate. */
  lemma {:induction false} QueryArguments(fdObj: Option<FileDescriptor>, osName: Option<string>, n: Native)
    requires ReachesQuery(fdObj, osName, n)
    ensures var t := TryGetTcpInfoV0(fdObj, osName, n);
      var c := GetSocketCandidate(fdObj.value);
      |t.calls| >= 2 &&
      t.calls[0] == GetSockOpt(c, 0xFFFF, 0x1008, 4) &&
      t.calls[1] == WsaIoctl(c, SIO_TCP_INFO, [0, 0, 0, 0], 4, StructSize)
  {
    var q := QueryTcpInfo(GetSocketCandidate(fdObj.value), n.ioctl);
    assert TryGetTcpInfoV0(fdObj, osName, n).calls == [GetSockOpt(GetSocketCandidate(fdObj.value), SOL_SOCKET, SO_TYPE, 4)] + q.calls;
  }

  /** A nonzero return code gives null whatever the native code left in the
      structure's memory. */
  lemma {:induction false} FailedQueryIgnoresBuffer(fdObj: Option<FileDescriptor>, osName: Option<string>,
                                                    so: SockOptResult, rc: Int32, out1: StructMemory, out2: StructMemory)
    requires rc != 0
    ensures TryGetTcpInfoV0(fdObj, osName, Native(so, IoctlReturned(rc, out1))) ==
            TryGetTcpInfoV0(fdObj, osName, Native(so, IoctlReturned(rc, out2)))
    ensures TryGetTcpInfoV0(fdObj, osName, Native(so, IoctlReturned(rc, out1))).outcome == Returned(None)
  {
  }

  /** The two versions differ only when `getsockopt` throws after the
      early guards: then the version as written throws, and the documented
      one returns null after the same single call. */
  lemma {:induction false} AsWrittenDiffersOnlyOnStreamCheckThrow(fdObj: Option<FileDescriptor>, osName: Option<string>, n: Native)
    ensures TryGetTcpInfoV0AsWritten(fdObj, osName, n).outcome.Thrown? <==>
      ReachesStreamCheck(fdObj, osName) && n.sockOpt.SockOptThrew?
    ensures TryGetTcpInfoV0AsWritten(fdObj, osName, n).calls == TryGetTcpInfoV0(fdObj, osName, n).calls
    ensures !TryGetTcpInfoV0AsWritten(fdObj, osName, n).outcome.Thrown? ==>
      TryGetTcpInfoV0AsWritten(fdObj, osName, n) == TryGetTcpInfoV0(fdObj, osName, n)
  {
  }

  /** A Windows host whose ws2_32 binding cannot be loaded: the version as
      written throws out of `tryGetTcpInfoV0`, the corrected one returns null. */
  lemma {:induction false} AsWrittenThrows(osName: string)
    requires StartsWith(osName, "Windows")
    ensures var fdObj := Some(FileDescriptor(NoHandleField, FdValue(5)));
      TryGetTcpInfoV0AsWritten(fdObj, Some(osName), Native(SockOptThrew, IoctlThrew)).outcome == Thrown
    ensures var fdObj := Some(FileDescriptor(NoHandleField, FdValue(5)));
      TryGetTcpInfoV0(fdObj, Some(osName), Native(SockOptThrew, IoctlThrew)).outcome == Returned(None)
  {
    WindowsNameAccepted(osName);
    assert GetSocketCandidate(FileDescriptor(NoHandleField, FdValue(5))) == 5;
  }
}
