/**
 * The liveness handshake of concert.c (concert_device_ping): send an
 * enquiry, read once, and succeed only if the first byte of the buffer is
 * an acknowledgement.
 */
module Handshake {
  import opened Protocol
  import opened Transport

  /**
   * What ping writes: its whole BUFSIZ-byte buffer, ENQ followed by zero
   * bytes (the buffer is zero-initialised and only its first byte is set).
   */
  function EnquiryBuffer(): (b: seq<Byte>)
    ensures |b| == BUFSIZ && b[0] == ENQ
    ensures forall i | 1 <= i < BUFSIZ :: b[i] == 0
  {
    [ENQ] + seq(BUFSIZ - 1, _ => 0)
  }

  /**
   * One ping: a write of the enquiry buffer, then, unless it failed, one
   * read into that same buffer; the byte tested is the buffer's first, so
   * a read of zero bytes leaves ENQ there.
   */
  function PingRun(s: Script, fd: int): (r: Run)
    ensures r.code == 1 <==> s.accepted >= 0 && !s.readFails && |s.reply| >= 1 && s.reply[0] == ACK
    ensures r.code == 1 || r.code == ERROR
    ensures 1 <= |r.trace| <= 2 && r.trace[0] == Write(fd, EnquiryBuffer())
    ensures |r.trace| == 2 <==> s.accepted >= 0
    ensures |r.trace| == 2 ==> r.trace[1] == Read(fd, BUFSIZ)
  {
    var enquiry := [Write(fd, EnquiryBuffer())];
    var w := WriteCode(s, BUFSIZ);
    if w < 0 then Run(w, enquiry)
    else
      var n := ReadCode(s, BUFSIZ);
      if n < 0 then Run(n, enquiry + [Read(fd, BUFSIZ)])
      else
        var first := if n > 0 then s.reply[0] else ENQ;
        Run(if first == ACK then 1 else ERROR, enquiry + [Read(fd, BUFSIZ)])
  }

  /** A terminal that answers nothing leaves the enquiry byte in place, so the ping fails. */
  lemma SilentTerminalFailsPing(s: Script, fd: int)
    requires s.accepted >= 0 && !s.readFails && s.reply == []
    ensures PingRun(s, fd).code == ERROR
    ensures |PingRun(s, fd).trace| == 2
  {
  }

  /** A terminal that answers ACK makes the ping succeed, whatever follows the ACK. */
  lemma AcknowledgedPing(s: Script, fd: int, rest: seq<Byte>)
    requires s.accepted >= 0 && !s.readFails && s.reply == [ACK] + rest
    ensures PingRun(s, fd).code == 1
  {
  }

  method DevicePing(host: Host, fd: int) returns (code: int)
    modifies host
    ensures code == PingRun(host.script, fd).code
    ensures host.log == old(host.log) + PingRun(host.script, fd).trace
  {
    var buffer := new Byte[BUFSIZ](_ => 0);
    buffer[0] := ENQ;
    assert buffer[..] == EnquiryBuffer();
    var written := DeviceWrite(host, fd, buffer[..]);
    if written < 0 {
      return written;
    }
    var read := DeviceRead(host, fd, buffer, BUFSIZ);
    if read < 0 {
      return read;
    }
    if buffer[0] != ACK {
      return ERROR;
    }
    return 1;
  }
}
