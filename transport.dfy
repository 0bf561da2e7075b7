/**
 * The serial transport of concert.c: opening, configuring, writing,
 * reading and closing a serial device. The POSIX calls underneath are not
 * modelled; a Host stands for them, returns scripted outcomes, and logs
 * every call in order, so that what the library does to the device can be
 * stated and proved.
 */
module Transport {
  import opened Protocol

  /** The line settings concert_device_open applies (concert.c:239-248). */
  datatype SerialConfig = SerialConfig(
    baud: nat, dataBits: nat, parityEnabled: bool, stopBits: nat,
    raw: bool, receiverEnabled: bool, localLine: bool)

  /** 9600 baud, 8 data bits, no parity, 1 stop bit, raw mode, receiver on, modem lines ignored. */
  const LINE_9600_8N1: SerialConfig := SerialConfig(9600, 8, false, 1, true, true, true)

  /** One system call as the host log records it. */
  datatype Op =
    | Open(path: string)
    | GetAttributes(fd: int)
    | SetAttributes(fd: int, config: SerialConfig)
    | Write(fd: int, data: seq<Byte>)
    | Read(fd: int, size: nat)
    | Close(fd: int)

  /** The scripted outcome of each kind of system call. */
  datatype Script = Script(
    openFd: int,        // what open() returns; negative is a failure
    getAttrOk: bool,    // whether tcgetattr succeeds
    setAttrOk: bool,    // whether tcsetattr succeeds
    accepted: int,      // how many bytes write() takes at most; negative is a failure
    readFails: bool,    // whether read() fails
    reply: seq<Byte>,   // what the terminal has sent, delivered by the next read()
    closeOk: bool)      // whether close() succeeds

  /** What write() returns for a request of `size` bytes: -1, or a count no larger than asked. */
  function WriteReturn(s: Script, size: nat): (n: int)
    ensures n == -1 || 0 <= n <= size
  {
    if s.accepted < 0 then -1 else Min(s.accepted, size)
  }

  /** What read() returns for a buffer of `size` bytes: -1, or how many reply bytes fit. */
  function ReadReturn(s: Script, size: nat): (n: int)
    ensures n == -1 || 0 <= n <= size
    ensures n >= 0 ==> n <= |s.reply|
  {
    if s.readFails then -1 else Min(|s.reply|, size)
  }

  /** The buffer after read(): the reply bytes that were read, then what was there before. */
  function Received(before: seq<Byte>, s: Script, size: nat): (after: seq<Byte>)
    requires size <= |before|
    ensures |after| == |before|
  {
    var n := ReadReturn(s, size);
    if n < 0 then before else s.reply[..n] + before[n..]
  }

  /** The operating system as the library sees it: scripted outcomes and a log of the calls made. */
  class Host {
    const script: Script
    var log: seq<Op>

    constructor (script: Script)
      ensures this.script == script && log == []
    {
      this.script := script;
      log := [];
    }

    method SysOpen(path: string) returns (fd: int)
      modifies this
      ensures fd == (if script.openFd < 0 then -1 else script.openFd)
      ensures log == old(log) + [Open(path)]
    {
      fd := if script.openFd < 0 then -1 else script.openFd;
      log := log + [Open(path)];
    }

    method SysGetAttributes(fd: int) returns (ok: bool)
      modifies this
      ensures ok == script.getAttrOk
      ensures log == old(log) + [GetAttributes(fd)]
    {
      ok := script.getAttrOk;
      log := log + [GetAttributes(fd)];
    }

    method SysSetAttributes(fd: int, config: SerialConfig) returns (ok: bool)
      modifies this
      ensures ok == script.setAttrOk
      ensures log == old(log) + [SetAttributes(fd, config)]
    {
      ok := script.setAttrOk;
      log := log + [SetAttributes(fd, config)];
    }

    method SysWrite(fd: int, data: seq<Byte>) returns (n: int)
      modifies this
      ensures n == WriteReturn(script, |data|)
      ensures log == old(log) + [Write(fd, data)]
    {
      n := WriteReturn(script, |data|);
      log := log + [Write(fd, data)];
    }

    /** read(fd, buffer, size): copies the bytes that arrived into the front of the buffer. */
    method SysRead(fd: int, buffer: array<Byte>, size: nat) returns (n: int)
      requires size <= buffer.Length
      modifies this, buffer
      ensures n == ReadReturn(script, size)
      ensures buffer[..] == Received(old(buffer[..]), script, size)
      ensures log == old(log) + [Read(fd, size)]
    {
      n := ReadReturn(script, size);
      var i := 0;
      while i < n
        invariant 0 <= i <= if n < 0 then 0 else n
        invariant forall j | 0 <= j < i :: buffer[j] == script.reply[j]
        invariant forall j | i <= j < buffer.Length :: buffer[j] == old(buffer[j])
        modifies buffer
      {
        buffer[i] := script.reply[i];
        i := i + 1;
      }
      if n >= 0 {
        assert buffer[..] == script.reply[..n] + old(buffer[..])[n..];
      }
      log := log + [Read(fd, size)];
    }

    method SysClose(fd: int) returns (r: int)
      modifies this
      ensures r == (if script.closeOk then 0 else -1)
      ensures log == old(log) + [Close(fd)]
    {
      r := if script.closeOk then 0 else -1;
      log := log + [Close(fd)];
    }
  }

  /** What a sequence of library calls returns, with the system calls it issues in order. */
  datatype Run = Run(code: int, trace: seq<Op>)

  /**
   * concert_device_open with its return value corrected to the descriptor:
   * open, read the attributes, apply the line settings; a failure after
   * open closes the descriptor again and reports CONCERT_ERROR.
   */
  function OpenRun(s: Script, path: string): (r: Run)
    ensures |r.trace| >= 1 && r.trace[0] == Open(path)
    ensures r.code >= 0 <==> s.openFd >= 0 && s.getAttrOk && s.setAttrOk
    ensures r.code >= 0 ==> r.code == s.openFd && SetAttributes(s.openFd, LINE_9600_8N1) in r.trace
    ensures r.code >= 0 ==> r.trace == [Open(path), GetAttributes(s.openFd), SetAttributes(s.openFd, LINE_9600_8N1)]
    ensures s.openFd < 0 ==> r.trace == [Open(path)]
    ensures r.code < 0 ==> r.code == ERROR
    ensures r.code < 0 && s.openFd >= 0 ==> r.trace[|r.trace| - 1] == Close(s.openFd)
    ensures forall op | op in r.trace :: !op.Write? && !op.Read?
  {
    var fd := s.openFd;
    if fd < 0 then Run(ERROR, [Open(path)])
    else if !s.getAttrOk then Run(ERROR, [Open(path), GetAttributes(fd), Close(fd)])
    else if !s.setAttrOk then
      Run(ERROR, [Open(path), GetAttributes(fd), SetAttributes(fd, LINE_9600_8N1), Close(fd)])
    else Run(fd, [Open(path), GetAttributes(fd), SetAttributes(fd, LINE_9600_8N1)])
  }

  /** concert_device_open as written: on success it returns 1 instead of the descriptor (concert.c:258). */
  function OpenRunAsWritten(s: Script, path: string): (r: Run)
    ensures r.trace == OpenRun(s, path).trace
    ensures r.code == 1 || r.code == ERROR
    ensures r.code == 1 <==> OpenRun(s, path).code >= 0
  {
    var o := OpenRun(s, path);
    if o.code < 0 then o else Run(1, o.trace)
  }

  /** The descriptor a successful open hands back differs from the one the device got whenever that one is not 1. */
  lemma OpenAsWrittenLosesDescriptor(s: Script, path: string)
    requires s.openFd >= 0 && s.getAttrOk && s.setAttrOk && s.openFd != 1
    ensures OpenRun(s, path).code == s.openFd
    ensures OpenRunAsWritten(s, path).code == 1 != s.openFd
  {
  }

  method DeviceOpen(host: Host, path: string) returns (fd: int)
    modifies host
    ensures fd == OpenRun(host.script, path).code
    ensures host.log == old(host.log) + OpenRun(host.script, path).trace
  {
    var port := host.SysOpen(path);
    if port < 0 {
      return ERROR;
    }
    var ok := host.SysGetAttributes(port);
    if !ok {
      var _ := host.SysClose(port);
      return ERROR;
    }
    ok := host.SysSetAttributes(port, LINE_9600_8N1);
    if !ok {
      var _ := host.SysClose(port);
      return ERROR;
    }
    return port;
  }

  method DeviceOpenAsWritten(host: Host, path: string) returns (fd: int)
    modifies host
    ensures fd == OpenRunAsWritten(host.script, path).code
    ensures host.log == old(host.log) + OpenRunAsWritten(host.script, path).trace
  {
    var port := host.SysOpen(path);
    if port < 0 {
      return ERROR;
    }
    var ok := host.SysGetAttributes(port);
    if !ok {
      var _ := host.SysClose(port);
      return ERROR;
    }
    ok := host.SysSetAttributes(port, LINE_9600_8N1);
    if !ok {
      var _ := host.SysClose(port);
      return ERROR;
    }
    return 1;
  }

  /** concert_device_close: a negative descriptor is refused without a system call. */
  function CloseRun(s: Script, fd: int): (r: Run)
    ensures fd < 0 ==> r == Run(ERROR_INVALID_DEVICE, [])
    ensures fd >= 0 ==> r.trace == [Close(fd)]
    ensures r.code == 1 <==> fd >= 0 && s.closeOk
    ensures r.code == 1 || r.code == ERROR || r.code == ERROR_INVALID_DEVICE
  {
    if fd < 0 then Run(ERROR_INVALID_DEVICE, [])
    else if !s.closeOk then Run(ERROR, [Close(fd)])
    else Run(1, [Close(fd)])
  }

  method DeviceClose(host: Host, fd: int) returns (r: int)
    modifies host
    ensures r == CloseRun(host.script, fd).code
    ensures host.log == old(host.log) + CloseRun(host.script, fd).trace
  {
    if fd < 0 {
      return ERROR_INVALID_DEVICE;
    }
    var closed := host.SysClose(fd);
    if closed < 0 {
      return ERROR;
    }
    return 1;
  }

  /** What concert_device_write returns: CONCERT_ERROR, or the count write() accepted. */
  function WriteCode(s: Script, size: nat): (n: int)
    ensures n == ERROR || 0 <= n <= size
    ensures n < 0 <==> s.accepted < 0
  {
    var w := WriteReturn(s, size);
    if w < 0 then ERROR else w
  }

  method DeviceWrite(host: Host, fd: int, data: seq<Byte>) returns (n: int)
    modifies host
    ensures n == WriteCode(host.script, |data|)
    ensures host.log == old(host.log) + [Write(fd, data)]
  {
    n := host.SysWrite(fd, data);
    if n < 0 {
      return ERROR;
    }
  }

  /** What concert_device_read returns: CONCERT_ERROR, or how many bytes arrived. */
  function ReadCode(s: Script, size: nat): (n: int)
    ensures n == ERROR || 0 <= n <= size
    ensures n < 0 <==> s.readFails
  {
    var k := ReadReturn(s, size);
    if k < 0 then ERROR else k
  }

  /** concert_device_read: a NULL buffer is refused before any system call. */
  method DeviceRead(host: Host, fd: int, buffer: array?<Byte>, size: nat) returns (n: int)
    requires buffer != null ==> size <= buffer.Length
    modifies host, buffer
    ensures buffer == null ==> n == ERROR && host.log == old(host.log)
    ensures buffer != null ==>
              n == ReadCode(host.script, size)
              && buffer[..] == Received(old(buffer[..]), host.script, size)
              && host.log == old(host.log) + [Read(fd, size)]
  {
    if buffer == null {
      return ERROR;
    }
    n := host.SysRead(fd, buffer, size);
    if n < 0 {
      return ERROR;
    }
  }
}
