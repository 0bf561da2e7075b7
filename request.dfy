/**
 * The request orchestrator of concert.c (concert_simple_request): build a
 * request from the amount, the currency and fixed defaults, encode it, and
 * drive one open, write, close cycle on the device.
 */
module Orchestrator {
  import opened Protocol
  import opened Codec
  import opened Amount
  import opened Transport

  /** The request concert_simple_request encodes (concert.c:180-189). */
  function DefaultRequest(amount: Uint32, currency: Option<CStr>): Request {
    Request(Some("01"), Some(FormatAmount(amount)), Some(INDICATOR_DO_NOT_INCLUDE),
            Some(MODE_BANK_CARD), Some(TYPE_CREDIT), currency, Some(PRIVATE_EMPTY),
            Some(DELAY_NOW), Some(AUTHORIZATION_AUTO))
  }

  /**
   * The defaults satisfy every rule, so the currency alone decides: any
   * three-character currency is accepted, anything else (NULL included) is
   * rejected as an invalid currency. With the authorization check as
   * written the request is rejected either way, so as written
   * concert_simple_request never reaches the device.
   */
  lemma DefaultsPassValidation(amount: Uint32, currency: Option<CStr>)
    ensures forall k | 0 <= k < FIELDS && k != 5 :: FieldOk(DefaultRequest(amount, currency), k)
    ensures Message(DefaultRequest(amount, currency)).Ok? <==> HasLength(currency, 3)
    ensures !HasLength(currency, 3) ==> Message(DefaultRequest(amount, currency)) == Err(ERROR_INVALID_CURRENCY)
    ensures MessageAsWritten(DefaultRequest(amount, currency))
              == Err(if HasLength(currency, 3) then ERROR_INVALID_AUTHORIZATION else ERROR_INVALID_CURRENCY)
  {
    var r := DefaultRequest(amount, currency);
    assert AllDigits("01") by {
      assert "01"[0] == '0' && "01"[1] == '1';
    }
    assert FieldOk(r, 0) && FieldOk(r, 1) && FieldOk(r, 2) && FieldOk(r, 3) && FieldOk(r, 4);
    assert FieldOk(r, 6) && FieldOk(r, 7) && FieldOk(r, 8);
    ValidateFailFast(r, 5);
    AuthorizationCheckRejectsAll(r);
  }

  /**
   * Lines 196-217 with the two transport defects corrected: the descriptor
   * open returns is the one written to and closed, and a failed write
   * still closes it. Every path that opened the device ends by closing it.
   */
  function SendRun(s: Script, path: string, frame: seq<Byte>): (r: Run)
    ensures |r.trace| >= 1 && r.trace[0] == Open(path)
    ensures r.code == 1 || r.code == ERROR
    ensures r.code == 1 <==> s.openFd >= 0 && s.getAttrOk && s.setAttrOk && s.accepted >= 0 && s.closeOk
    ensures r.code == 1 ==>
              r.trace == [Open(path), GetAttributes(s.openFd), SetAttributes(s.openFd, LINE_9600_8N1),
                          Write(s.openFd, frame), Close(s.openFd)]
    ensures s.openFd >= 0 ==> r.trace[|r.trace| - 1] == Close(s.openFd)
    ensures forall op | op in r.trace && op.Write? :: op == Write(s.openFd, frame)
    ensures !(s.openFd >= 0 && s.getAttrOk && s.setAttrOk) ==> r == Run(ERROR, OpenRun(s, path).trace)
    ensures s.openFd >= 0 && s.getAttrOk && s.setAttrOk ==>
              r.trace == [Open(path), GetAttributes(s.openFd), SetAttributes(s.openFd, LINE_9600_8N1),
                          Write(s.openFd, frame), Close(s.openFd)]
  {
    var o := OpenRun(s, path);
    if o.code < 0 then Run(ERROR, o.trace)
    else
      var fd := o.code;
      var w := WriteCode(s, |frame|);
      var c := CloseRun(s, fd);
      var trace := o.trace + [Write(fd, frame)] + c.trace;
      if w < 0 then Run(w, trace)
      else if c.code < 0 then Run(c.code, trace)
      else Run(1, trace)
  }

  /** Lines 196-217 as written: the descriptor used is open's 1, and a failed write returns at once. */
  function SendRunAsWritten(s: Script, path: string, frame: seq<Byte>): (r: Run)
    ensures |r.trace| >= 1 && r.trace[0] == Open(path)
    ensures r.code == 1 || r.code == ERROR
    ensures r.code == 1 <==> s.openFd >= 0 && s.getAttrOk && s.setAttrOk && s.accepted >= 0 && s.closeOk
    ensures r.code == 1 ==>
              r.trace == [Open(path), GetAttributes(s.openFd), SetAttributes(s.openFd, LINE_9600_8N1),
                          Write(1, frame), Close(1)]
    ensures !(s.openFd >= 0 && s.getAttrOk && s.setAttrOk) ==> r == Run(ERROR, OpenRun(s, path).trace)
  {
    var o := OpenRunAsWritten(s, path);
    if o.code < 0 then Run(ERROR, o.trace)
    else
      var fd := o.code;
      var w := WriteCode(s, |frame|);
      if w < 0 then Run(w, o.trace + [Write(fd, frame)])
      else
        var c := CloseRun(s, fd);
        Run(if c.code < 0 then c.code else 1, o.trace + [Write(fd, frame)] + c.trace)
  }

  /**
   * As written, a failed write leaves the opened descriptor open: the
   * trace ends with the write and holds no close at all.
   */
  lemma SendAsWrittenLeaksOnWriteFailure(s: Script, path: string, frame: seq<Byte>)
    requires s.openFd >= 0 && s.getAttrOk && s.setAttrOk && s.accepted < 0
    ensures SendRunAsWritten(s, path, frame).code == ERROR
    ensures forall op | op in SendRunAsWritten(s, path, frame).trace :: !op.Close?
    ensures SendRun(s, path, frame).trace[|SendRun(s, path, frame).trace| - 1] == Close(s.openFd)
  {
  }

  /**
   * As written, a device opened on any descriptor but 1 never receives the
   * frame: it is written to descriptor 1 (standard output), descriptor 1
   * is closed, and the device's descriptor is never closed.
   */
  lemma SendAsWrittenMissesDevice(s: Script, path: string, frame: seq<Byte>)
    requires s.openFd >= 0 && s.getAttrOk && s.setAttrOk && s.openFd != 1
    ensures Write(1, frame) in SendRunAsWritten(s, path, frame).trace
    ensures Write(s.openFd, frame) !in SendRunAsWritten(s, path, frame).trace
    ensures Close(s.openFd) !in SendRunAsWritten(s, path, frame).trace
    ensures Write(s.openFd, frame) in SendRun(s, path, frame).trace
  {
    var t := SendRunAsWritten(s, path, frame).trace;
    assert t[3] == Write(1, frame);
    assert SendRun(s, path, frame).trace[3] == Write(s.openFd, frame);
  }

  /** A short write is not noticed: it counts as success even when the frame was cut. */
  lemma ShortWriteCountsAsSuccess(s: Script, path: string, frame: seq<Byte>)
    requires s.openFd >= 0 && s.getAttrOk && s.setAttrOk && s.closeOk
    requires 0 <= s.accepted < |frame|
    ensures WriteCode(s, |frame|) < |frame|
    ensures SendRun(s, path, frame).code == 1
  {
  }

  method SendFrame(host: Host, path: string, frame: seq<Byte>) returns (code: int)
    modifies host
    ensures code == SendRun(host.script, path, frame).code
    ensures host.log == old(host.log) + SendRun(host.script, path, frame).trace
  {
    var fd := DeviceOpen(host, path);
    if fd < 0 {
      return ERROR;
    }
    var written := DeviceWrite(host, fd, frame);
    var closed := DeviceClose(host, fd);
    if written < 0 {
      return written;
    }
    if closed < 0 {
      return closed;
    }
    return 1;
  }

  method SendFrameAsWritten(host: Host, path: string, frame: seq<Byte>) returns (code: int)
    modifies host
    ensures code == SendRunAsWritten(host.script, path, frame).code
    ensures host.log == old(host.log) + SendRunAsWritten(host.script, path, frame).trace
  {
    var fd := DeviceOpenAsWritten(host, path);
    if fd < 0 {
      return ERROR;
    }
    var written := DeviceWrite(host, fd, frame);
    if written < 0 {
      return written;
    }
    var closed := DeviceClose(host, fd);
    if closed < 0 {
      return closed;
    }
    return 1;
  }

  /**
   * concert_simple_request with the defects corrected: a NULL device or a
   * rejected request returns its code before any I/O; otherwise the frame
   * of the default request is sent by SendRun. Success is 1, the value
   * concert.c:217 returns; the header comment at concert.h:118 documents 0,
   * which no path of the code returns.
   */
  function RequestRun(s: Script, device: Option<string>, amount: Uint32, currency: Option<CStr>): (r: Run)
    ensures device.None? ==> r == Run(ERROR_INVALID_DEVICE, [])
    ensures device.Some? && !HasLength(currency, 3) ==> r == Run(ERROR_INVALID_CURRENCY, [])
    ensures r.trace != [] ==> device.Some? && r.trace[0] == Open(device.value)
    ensures forall op | op in r.trace && op.Write? ::
              op.data == Frame(DefaultRequest(amount, currency)) && |op.data| == 37
    ensures r.code == 1 ==> Write(s.openFd, Frame(DefaultRequest(amount, currency))) in r.trace
    ensures device.Some? && HasLength(currency, 3) ==> r == SendRun(s, device.value, Frame(DefaultRequest(amount, currency)))
  {
    DefaultsPassValidation(amount, currency);
    if device.None? then Run(ERROR_INVALID_DEVICE, [])
    else
      match Message(DefaultRequest(amount, currency))
      case Err(e) => Run(e, [])
      case Ok(frame) =>
        var r := SendRun(s, device.value, frame);
        assert r.code == 1 ==> r.trace[3] == Write(s.openFd, frame);
        r
  }

  /** concert_simple_request as written: the as-written codec, then the as-written transport sequence. */
  function RequestRunAsWritten(s: Script, device: Option<string>, amount: Uint32, currency: Option<CStr>): (r: Run)
    ensures device.None? ==> r == Run(ERROR_INVALID_DEVICE, [])
    ensures device.Some? && !HasLength(currency, 3) ==> r == Run(ERROR_INVALID_CURRENCY, [])
  {
    DefaultsPassValidation(amount, currency);
    if device.None? then Run(ERROR_INVALID_DEVICE, [])
    else
      match MessageAsWritten(DefaultRequest(amount, currency))
      case Err(e) => Run(e, [])
      case Ok(frame) => SendRunAsWritten(s, device.value, frame)
  }

  /**
   * As written, concert_simple_request issues no system call at all: it
   * returns CONCERT_ERROR_INVALID_DEVICE, CONCERT_ERROR_INVALID_CURRENCY or,
   * for every usable currency, CONCERT_ERROR_INVALID_AUTHORIZATION.
   */
  lemma RequestAsWrittenNeverReachesDevice(s: Script, device: Option<string>, amount: Uint32, currency: Option<CStr>)
    ensures RequestRunAsWritten(s, device, amount, currency).trace == []
    ensures device.Some? && HasLength(currency, 3) ==>
              RequestRunAsWritten(s, device, amount, currency).code == ERROR_INVALID_AUTHORIZATION
    ensures device.Some? && HasLength(currency, 3) ==> RequestRun(s, device, amount, currency).trace != []
  {
    DefaultsPassValidation(amount, currency);
  }

  method SimpleRequest(host: Host, device: Option<string>, amount: Uint32, currency: Option<CStr>)
    returns (code: int)
    modifies host
    ensures code == RequestRun(host.script, device, amount, currency).code
    ensures host.log == old(host.log) + RequestRun(host.script, device, amount, currency).trace
  {
    if device.None? {
      return ERROR_INVALID_DEVICE;
    }
    var buffer := new Byte[BUFSIZ];
    var request := DefaultRequest(amount, currency);
    ghost var before := buffer[..];
    var size := WriteMessage(buffer, BUFSIZ, request);
    if size < 0 {
      return size;
    }
    EmittedHoldsFrame(before, Message(request).value, BUFSIZ);
    code := SendFrame(host, device.value, buffer[..size]);
  }

  /**
   * The documented scenario: 125.99 EUR on a terminal that accepts
   * everything is sent as the frame of "01", "00012599", "0", "1", "1",
   * "978", ten blanks, "A011", "B010", in one open, configure, write, close
   * cycle, and the call returns 1.
   */
  lemma RequestExample(s: Script, path: string)
    requires s.openFd >= 0 && s.getAttrOk && s.setAttrOk && s.accepted >= 0 && s.closeOk
    ensures DefaultRequest(12599, Some(CURRENCY_EUR))
              == Request(Some("01"), Some("00012599"), Some("0"), Some("1"), Some("1"), Some("978"),
                         Some("          "), Some("A011"), Some("B010"))
    ensures RequestRun(s, Some(path), 12599, Some(CURRENCY_EUR))
              == Run(1, [Open(path), GetAttributes(s.openFd), SetAttributes(s.openFd, LINE_9600_8N1),
                         Write(s.openFd, Frame(DefaultRequest(12599, Some(CURRENCY_EUR)))), Close(s.openFd)])
  {
    FormatExample();
    var r := DefaultRequest(12599, Some(CURRENCY_EUR));
    DefaultsPassValidation(12599, Some(CURRENCY_EUR));
    assert HasLength(Some(CURRENCY_EUR), 3);
    assert Validate(r).None?;
    assert Message(r) == Ok(Frame(r));
    assert SendRun(s, path, Frame(r)).code == 1;
  }
}
