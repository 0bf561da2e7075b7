/**
 * The message codec of concert.c: the digit check, the LRC checksum, the
 * fail-fast validation of the nine request fields and the 37-byte frame.
 */
module Codec {
  import opened Protocol

  // ---------------------------------------------------------------------
  // concert_is_number
  // ---------------------------------------------------------------------

  /** Walks the string and answers 1 when every character is a digit, 0 otherwise. */
  method IsNumber(s: CStr) returns (r: int)
    ensures r == 0 || r == 1
    ensures r == 1 <==> AllDigits(s)
  {
    var i := 0;
    while i < |s|
      invariant 0 <= i <= |s|
      invariant forall j | 0 <= j < i :: IsDigit(s[j])
    {
      if !IsDigit(s[i]) {
        return 0;
      }
      i := i + 1;
    }
    return 1;
  }

  // ---------------------------------------------------------------------
  // concert_lrc
  // ---------------------------------------------------------------------

  /** The longitudinal redundancy check: XOR of the bytes, folded left from 0. */
  function Lrc(s: seq<Byte>): Byte {
    if s == [] then 0 else Lrc(s[..|s| - 1]) ^ s[|s| - 1]
  }

  lemma LrcSnoc(s: seq<Byte>, c: Byte)
    ensures Lrc(s + [c]) == Lrc(s) ^ c
  {
    assert (s + [c])[..|s|] == s;
  }

  /** The checksum of a concatenation is the XOR of the checksums of the parts. */
  lemma {:induction false} LrcAppend(a: seq<Byte>, b: seq<Byte>)
    ensures Lrc(a + b) == Lrc(a) ^ Lrc(b)
  {
    if b == [] {
      assert a + b == a;
    } else {
      var init, last := b[..|b| - 1], b[|b| - 1];
      assert b == init + [last];
      assert a + b == (a + init) + [last];
      LrcAppend(a, init);
      LrcSnoc(a + init, last);
      LrcSnoc(init, last);
    }
  }

  /** Appending a span's own checksum makes the checksum of the whole zero. */
  lemma LrcSelfCancels(s: seq<Byte>)
    ensures Lrc(s + [Lrc(s)]) == 0
  {
    LrcSnoc(s, Lrc(s));
  }

  /** Length of the C string held in `mem`: the index of its first NUL. */
  function StrLen(mem: seq<Byte>): (n: nat)
    requires 0 in mem
    ensures n < |mem| && mem[n] == 0
    ensures forall i | 0 <= i < n :: mem[i] != 0
  {
    if mem[0] == 0 then 0 else 1 + StrLen(mem[1..])
  }

  /** A NUL-free byte string followed by its terminator has its own length. */
  lemma StrLenOfTerminated(s: seq<Byte>)
    requires NulFree(s)
    ensures StrLen(s + [0]) == |s|
  {
  }

  /** Walks the string up to its NUL, XOR-ing each byte into the accumulator. */
  method ConcertLrc(mem: seq<Byte>) returns (lrc: Byte)
    requires 0 in mem
    ensures lrc == Lrc(mem[..StrLen(mem)])
  {
    lrc := 0;
    var i := 0;
    while mem[i] != 0
      invariant 0 <= i <= StrLen(mem)
      invariant lrc == Lrc(mem[..i])
      decreases StrLen(mem) - i
    {
      assert mem[..i + 1] == mem[..i] + [mem[i]];
      LrcSnoc(mem[..i], mem[i]);
      lrc := lrc ^ mem[i];
      i := i + 1;
    }
  }

  // ---------------------------------------------------------------------
  // Characters and bytes
  // ---------------------------------------------------------------------

  /** The byte of one non-NUL character of a C string. */
  function ByteOf(c: char): (b: Byte)
    requires 0 < c as int < 256
    ensures b as int == c as int && b != 0
  {
    (c as int) as Byte
  }

  /** The bytes of a C string, one per character, none of them NUL. */
  function Bytes(s: CStr): (b: seq<Byte>)
    ensures |b| == |s|
    ensures forall i | 0 <= i < |s| :: b[i] as int == s[i] as int
    ensures NulFree(b)
  {
    seq(|s|, i requires 0 <= i < |s| => ByteOf(s[i]))
  }

  /** The C string spelled by NUL-free bytes. */
  function Chars(b: seq<Byte>): (s: CStr)
    requires NulFree(b)
    ensures |s| == |b|
    ensures forall i | 0 <= i < |b| :: s[i] as int == b[i] as int
  {
    seq(|b|, i requires 0 <= i < |b| => (b[i] as int) as char)
  }

  lemma CharsOfBytes(s: CStr)
    ensures Chars(Bytes(s)) == s
  {
  }

  // ---------------------------------------------------------------------
  // The request and its validation (concert_message, lines 47-108)
  // ---------------------------------------------------------------------

  /** The nine arguments of concert_message; `None` is a NULL pointer. */
  datatype Request = Request(
    cashRegisterId: Option<CStr>,
    amount: Option<CStr>,
    indicator: Option<CStr>,
    mode: Option<CStr>,
    txType: Option<CStr>,
    currency: Option<CStr>,
    privateData: Option<CStr>,
    delay: Option<CStr>,
    authorization: Option<CStr>)

  /** Number of fields, which are checked in declaration order 0 .. 8. */
  const FIELDS: nat := 9

  /** The code reported when field k is the one rejected: -2 for the register id .. -10 for the authorization. */
  function FieldError(k: nat): (e: int)
    requires k < FIELDS
    ensures ERROR_INVALID_AUTHORIZATION <= e <= ERROR_INVALID_CASH_REGISTER_ID
    ensures e == ErrorCodes[k + 1]
  {
    ERROR_INVALID_CASH_REGISTER_ID - k
  }

  /** Non-NULL and of exactly n characters (strlen(f) == n). */
  predicate HasLength(f: Option<CStr>, n: nat) {
    f.Some? && |f.value| == n
  }

  /** Non-NULL, of length n, and equal to a or to b (two strcmp tests). */
  predicate OneOf(f: Option<CStr>, n: nat, a: CStr, b: CStr) {
    HasLength(f, n) && (f.value == a || f.value == b)
  }

  /**
   * The rule for field k. Fields 0 .. 7 are checked exactly as at
   * concert.c:47-101. Field 8 is the corrected authorization rule: the
   * authorization itself must be the auto-authorization code (concert.c:104
   * compares `mode` instead; see ValidateAsWritten).
   */
  predicate FieldOk(r: Request, k: nat)
    requires k < FIELDS
  {
    match k
    case 0 => HasLength(r.cashRegisterId, 2) && AllDigits(r.cashRegisterId.value)
    case 1 => HasLength(r.amount, 8) && AllDigits(r.amount.value)
    case 2 => HasLength(r.indicator, 1)
    case 3 => OneOf(r.mode, 1, MODE_CHEQUE, MODE_BANK_CARD)
    case 4 => OneOf(r.txType, 1, TYPE_DEBIT, TYPE_CREDIT)
    case 5 => HasLength(r.currency, 3)
    case 6 => HasLength(r.privateData, 10)
    case 7 => OneOf(r.delay, 4, DELAY_NOW, DELAY_LATER)
    case _ => HasLength(r.authorization, 4) && r.authorization.value == AUTHORIZATION_AUTO
  }

  /** The index of the first field from k on that breaks its rule, or FIELDS when none does. */
  function FirstFailing(r: Request, k: nat): (j: nat)
    requires k <= FIELDS
    ensures k <= j <= FIELDS
    ensures forall i | k <= i < j :: FieldOk(r, i)
    ensures j < FIELDS ==> !FieldOk(r, j)
    decreases FIELDS - k
  {
    if k == FIELDS then FIELDS
    else if !FieldOk(r, k) then k
    else FirstFailing(r, k + 1)
  }

  /** The validation chain with the corrected authorization rule: None when every field passes. */
  function Validate(r: Request): Option<int> {
    var j := FirstFailing(r, 0);
    if j == FIELDS then None else Some(FieldError(j))
  }

  /**
   * Fail-fast: validation reports the error of field k exactly when every
   * earlier field passes and field k does not; it reports nothing exactly
   * when every field passes.
   */
  lemma ValidateFailFast(r: Request, k: nat)
    requires k < FIELDS
    ensures Validate(r) == Some(FieldError(k)) <==>
              (forall i | 0 <= i < k :: FieldOk(r, i)) && !FieldOk(r, k)
    ensures Validate(r).None? <==> forall i | 0 <= i < FIELDS :: FieldOk(r, i)
  {
  }

  /**
   * The authorization test exactly as concert.c:103-104 writes it: the
   * authorization must be four characters long and the MODE must equal
   * "B010".
   */
  predicate AuthorizationOkAsWritten(r: Request) {
    HasLength(r.authorization, 4) && r.mode.Some? && r.mode.value == AUTHORIZATION_AUTO
  }

  /** The validation chain as written: fields 0 .. 7 as in Validate, then the test of line 104. */
  function ValidateAsWritten(r: Request): Option<int> {
    var j := FirstFailing(r, 0);
    if j < 8 then Some(FieldError(j))
    else if AuthorizationOkAsWritten(r) then None
    else Some(ERROR_INVALID_AUTHORIZATION)
  }

  /**
   * As written, no request passes validation: whatever reaches line 103 has
   * a one-character mode (line 67), which never equals the four-character
   * "B010", so it is rejected as an invalid authorization.
   */
  lemma AuthorizationCheckRejectsAll(r: Request)
    ensures ValidateAsWritten(r).Some?
    ensures (forall i | 0 <= i < 8 :: FieldOk(r, i)) ==>
              ValidateAsWritten(r) == Some(ERROR_INVALID_AUTHORIZATION)
  {
    var j := FirstFailing(r, 0);
    if j >= 8 {
      assert FieldOk(r, 3);
      assert |r.mode.value| == 1;
      assert |AUTHORIZATION_AUTO| == 4;
    }
  }

  /** The two chains agree on every field but the last. */
  lemma ValidateAgreesBeforeAuthorization(r: Request)
    ensures Validate(r) != Some(ERROR_INVALID_AUTHORIZATION) ==> ValidateAsWritten(r) == Validate(r) || Validate(r).None?
    ensures ValidateAsWritten(r) != Some(ERROR_INVALID_AUTHORIZATION) ==> ValidateAsWritten(r) == Validate(r)
  {
  }

  // ---------------------------------------------------------------------
  // The frame (concert_message, lines 110-127)
  // ---------------------------------------------------------------------

  /** A NULL field contributes nothing; only complete requests are ever framed. */
  function Text(f: Option<CStr>): CStr {
    if f.Some? then f.value else ""
  }

  /** The nine fields in the order they are printed. */
  function Fields(r: Request): (fs: seq<CStr>)
    ensures |fs| == FIELDS
  {
    [Text(r.cashRegisterId), Text(r.amount), Text(r.indicator), Text(r.mode), Text(r.txType),
     Text(r.currency), Text(r.privateData), Text(r.delay), Text(r.authorization)]
  }

  /** The width of each field on the wire. */
  const WIDTHS: seq<nat> := [2, 8, 1, 1, 1, 3, 10, 4, 4]

  /** Where each field starts within the span (byte 1 of the frame is span byte 0). */
  const OFFSETS: seq<nat> := [0, 2, 10, 11, 12, 13, 16, 26, 30]

  /** The parts printed one after another, as `%s%s...` does. */
  function Join(parts: seq<CStr>): seq<Byte> {
    if parts == [] then [] else Bytes(parts[0]) + Join(parts[1..])
  }

  /** Where part k starts in Join(parts): the sum of the lengths before it. */
  function Offset(parts: seq<CStr>, k: nat): nat
    requires k <= |parts|
  {
    if k == 0 then 0 else |parts[0]| + Offset(parts[1..], k - 1)
  }

  lemma {:induction false} OffsetStep(parts: seq<CStr>, k: nat)
    requires k < |parts|
    ensures Offset(parts, k + 1) == Offset(parts, k) + |parts[k]|
  {
    if k > 0 {
      OffsetStep(parts[1..], k - 1);
    }
  }

  /** The joined parts hold no NUL, and their length is the offset past the last part. */
  lemma {:induction false} JoinShape(parts: seq<CStr>)
    ensures |Join(parts)| == Offset(parts, |parts|)
    ensures NulFree(Join(parts))
  {
    if parts != [] {
      JoinShape(parts[1..]);
    }
  }

  /** A slice that lies inside the second half of a concatenation is a slice of that half. */
  lemma SliceOfSecond(a: seq<Byte>, b: seq<Byte>, lo: nat, hi: nat)
    requires |a| <= lo <= hi <= |a| + |b|
    ensures (a + b)[lo..hi] == b[lo - |a|..hi - |a|]
  {
  }

  /** Part k sits in Join(parts) at Offset(parts, k). */
  lemma {:induction false} JoinSlice(parts: seq<CStr>, k: nat)
    requires k < |parts|
    ensures Offset(parts, k) + |parts[k]| <= |Join(parts)|
    ensures Join(parts)[Offset(parts, k)..Offset(parts, k) + |parts[k]|] == Bytes(parts[k])
  {
    var head, rest := Bytes(parts[0]), Join(parts[1..]);
    assert Join(parts) == head + rest;
    if k == 0 {
      assert (head + rest)[..|head|] == head;
    } else {
      var tail := parts[1..];
      assert tail[k - 1] == parts[k];
      JoinSlice(tail, k - 1);
      var o := Offset(tail, k - 1);
      assert Offset(parts, k) == |head| + o;
      SliceOfSecond(head, rest, |head| + o, |head| + o + |parts[k]|);
    }
  }

  /** The fields of an accepted request have exactly the widths of the table. */
  lemma FieldWidths(r: Request)
    requires Validate(r).None?
    ensures forall k | 0 <= k < FIELDS :: |Fields(r)[k]| == WIDTHS[k]
  {
    ValidateFailFast(r, 0);
    assert FieldOk(r, 0) && FieldOk(r, 1) && FieldOk(r, 2) && FieldOk(r, 3) && FieldOk(r, 4);
    assert FieldOk(r, 5) && FieldOk(r, 6) && FieldOk(r, 7) && FieldOk(r, 8);
  }

  /** For an accepted request the offsets are those of the table and the fields fill 34 bytes. */
  lemma FieldOffsets(r: Request)
    requires Validate(r).None?
    ensures forall k | 0 <= k < FIELDS :: Offset(Fields(r), k) == OFFSETS[k]
    ensures Offset(Fields(r), FIELDS) == 34
  {
    var fs := Fields(r);
    FieldWidths(r);
    OffsetStep(fs, 0);
    OffsetStep(fs, 1);
    OffsetStep(fs, 2);
    OffsetStep(fs, 3);
    OffsetStep(fs, 4);
    OffsetStep(fs, 5);
    OffsetStep(fs, 6);
    OffsetStep(fs, 7);
    OffsetStep(fs, 8);
  }

  /** The checksum span: the nine fields in order, then ETX. */
  function Span(r: Request): seq<Byte> {
    Join(Fields(r)) + [ETX]
  }

  /** STX, the span, and the span's checksum. */
  function Frame(r: Request): (f: seq<Byte>)
    ensures |f| == |Span(r)| + 2 && f[0] == STX && f[|f| - 1] == Lrc(Span(r))
  {
    [STX] + Span(r) + [Lrc(Span(r))]
  }

  /** The span of an accepted request has no NUL and is 35 bytes long, whatever the fields hold. */
  lemma SpanOfAccepted(r: Request)
    requires Validate(r).None?
    ensures |Span(r)| == 35 && NulFree(Span(r))
  {
    JoinShape(Fields(r));
    FieldOffsets(r);
  }

  /**
   * The frame of an accepted request: 37 bytes, STX first, ETX at 35, and
   * a last byte equal to the XOR of bytes 1 .. 35, so that the XOR of
   * bytes 1 .. 36 is zero.
   */
  lemma FrameShape(r: Request)
    requires Validate(r).None?
    ensures |Frame(r)| == 37
    ensures Frame(r)[0] == STX && Frame(r)[35] == ETX
    ensures Frame(r)[36] == Lrc(Frame(r)[1..36])
    ensures Lrc(Frame(r)[1..]) == 0
  {
    SpanOfAccepted(r);
    var f := Frame(r);
    assert f[1..36] == Span(r);
    assert f[1..] == Span(r) + [Lrc(Span(r))];
    LrcSelfCancels(Span(r));
  }

  /**
   * The wire layout: field k occupies WIDTHS[k] bytes from byte
   * 1 + OFFSETS[k] of the frame (register id at 1-2, amount at 3-10,
   * indicator at 11, mode at 12, type at 13, currency at 14-16, private
   * data at 17-26, delay at 27-30, authorization at 31-34).
   */
  lemma FrameLayout(r: Request, k: nat)
    requires Validate(r).None? && k < FIELDS
    ensures |Frame(r)| == 37
    ensures Frame(r)[1 + OFFSETS[k]..1 + OFFSETS[k] + WIDTHS[k]] == Bytes(Fields(r)[k])
  {
    FrameShape(r);
    FieldWidths(r);
    FieldOffsets(r);
    JoinSlice(Fields(r), k);
    var j := Join(Fields(r));
    var f := Frame(r);
    assert f == [STX] + j + [ETX, Lrc(Span(r))];
    var lo, hi := OFFSETS[k], OFFSETS[k] + WIDTHS[k];
    assert f[1 + lo..1 + hi] == j[lo..hi];
  }

  /** concert_message with the two defects corrected: the frame, or the first failing field's code. */
  function Message(r: Request): (m: Result<seq<Byte>>)
    ensures m.Ok? <==> forall i | 0 <= i < FIELDS :: FieldOk(r, i)
    ensures m.Ok? ==> |m.value| == 37 && m.value[0] == STX && m.value[36] == Lrc(m.value[1..36])
    ensures m.Ok? ==> m.value == Frame(r)
    ensures m.Err? ==> ERROR_INVALID_AUTHORIZATION <= m.code <= ERROR_INVALID_CASH_REGISTER_ID
    ensures m.Err? ==> exists k | 0 <= k < FIELDS ::
              m.code == FieldError(k) && (forall i | 0 <= i < k :: FieldOk(r, i)) && !FieldOk(r, k)
  {
    ValidateFailFast(r, 0);
    match Validate(r)
    case Some(e) =>
      var k := FirstFailing(r, 0);
      assert e == FieldError(k) && (forall i | 0 <= i < k :: FieldOk(r, i)) && !FieldOk(r, k);
      Err(e)
    case None => FrameShape(r); Ok(Frame(r))
  }

  /**
   * The second snprintf as concert.c:120-125 writes it: it prints STX, the
   * buffer and the checksum into that same buffer (overlapping source and
   * destination, undefined in C) and treats any nonzero return as failure.
   * Its return is the number of characters it prints, 1 + |span| + 1, so
   * the success branch is never taken.
   */
  function EncodeAsWritten(span: seq<Byte>): Result<seq<Byte>> {
    var printed := 1 + |span| + 1;
    if printed != 0 then Err(ERROR) else Ok([STX] + span + [Lrc(span)])
  }

  lemma EncodeAsWrittenAlwaysFails(span: seq<Byte>)
    ensures EncodeAsWritten(span) == Err(ERROR)
  {
  }

  /** concert_message as written: the as-written chain, then the as-written encoding. */
  function MessageAsWritten(r: Request): Result<seq<Byte>> {
    match ValidateAsWritten(r)
    case Some(e) => Err(e)
    case None => EncodeAsWritten(Span(r))
  }

  /** As written, concert_message never returns the frame size 37: it fails on every input. */
  lemma MessageAsWrittenNeverSucceeds(r: Request)
    ensures MessageAsWritten(r).Err?
    ensures (forall i | 0 <= i < 8 :: FieldOk(r, i)) ==> MessageAsWritten(r) == Err(ERROR_INVALID_AUTHORIZATION)
    ensures ValidateAsWritten(r) == Validate(r) ==> MessageAsWritten(r) == Message(r)
  {
    AuthorizationCheckRejectsAll(r);
  }

  // ---------------------------------------------------------------------
  // Filling the caller's buffer
  // ---------------------------------------------------------------------

  /**
   * The caller's buffer after the frame is written: the first 37 bytes are
   * cleared (memset), then at most size - 1 bytes of the frame are copied
   * in, followed by a terminating NUL, as snprintf does with a buffer of
   * `size` bytes. Every other byte is left as it was.
   */
  function Emitted(before: seq<Byte>, frame: seq<Byte>, size: nat): (after: seq<Byte>)
    requires |frame| == 37 && 37 <= |before| && size <= |before|
    ensures |after| == |before|
    ensures forall i | 38 <= i < |before| :: after[i] == before[i]
  {
    var n := if size == 0 then 0 else Min(size - 1, 37);
    seq(|before|, i requires 0 <= i < |before| =>
      if i < n then frame[i]
      else if i < 37 || (i == 37 && size > 37) then 0
      else before[i])
  }

  /** A buffer of at least 38 bytes ends up holding the whole frame as a NUL-terminated string. */
  lemma EmittedHoldsFrame(before: seq<Byte>, frame: seq<Byte>, size: nat)
    requires |frame| == 37 && 38 <= size <= |before|
    ensures Emitted(before, frame, size)[..37] == frame
    ensures Emitted(before, frame, size)[37] == 0
    ensures Emitted(before, frame, size)[38..] == before[38..]
  {
  }

  /**
   * concert_message with the defects corrected, writing into the caller's
   * buffer. On a validation failure it returns that field's code and leaves
   * the buffer untouched (nothing is written before line 110); otherwise it
   * returns 37 and the buffer holds the frame.
   */
  method WriteMessage(buffer: array<Byte>, bufferSize: nat, r: Request) returns (size: int)
    requires 37 <= buffer.Length && bufferSize <= buffer.Length
    modifies buffer
    ensures size == 37 || size < 0
    ensures Message(r).Err? ==> size == Message(r).code && buffer[..] == old(buffer[..])
    ensures Message(r).Ok? ==>
              size == 37 && buffer[..] == Emitted(old(buffer[..]), Message(r).value, bufferSize)
  {
    var checked := Validate(r);
    if checked.Some? {
      return checked.value;
    }
    var frame := Frame(r);
    FrameShape(r);
    ghost var before := buffer[..];

    var i := 0;
    while i < 37
      invariant 0 <= i <= 37
      invariant forall j | 0 <= j < i :: buffer[j] == 0
      invariant forall j | i <= j < buffer.Length :: buffer[j] == before[j]
    {
      buffer[i] := 0;
      i := i + 1;
    }

    if bufferSize > 0 {
      var n := Min(bufferSize - 1, 37);
      i := 0;
      while i < n
        invariant 0 <= i <= n
        invariant forall j | 0 <= j < i :: buffer[j] == frame[j]
        invariant forall j | i <= j < 37 :: buffer[j] == 0
        invariant forall j | 37 <= j < buffer.Length :: buffer[j] == before[j]
      {
        buffer[i] := frame[i];
        i := i + 1;
      }
      buffer[n] := 0;
    }
    assert buffer[..] == Emitted(before, frame, bufferSize);
    size := 37;
  }

  // ---------------------------------------------------------------------
  // Reading a frame back
  // ---------------------------------------------------------------------

  /** The bytes of field k in a 37-byte frame, by the width table. */
  function FieldAt(f: seq<Byte>, k: nat): (b: seq<Byte>)
    requires |f| == 37 && k < FIELDS
    ensures |b| == WIDTHS[k]
    ensures NulFree(f[1..35]) ==> NulFree(b)
  {
    var lo := 1 + OFFSETS[k];
    if NulFree(f[1..35]) then PayloadSliceNulFree(f, lo, lo + WIDTHS[k]); f[lo..lo + WIDTHS[k]]
    else f[lo..lo + WIDTHS[k]]
  }

  lemma PayloadSliceNulFree(f: seq<Byte>, lo: nat, hi: nat)
    requires |f| == 37 && 1 <= lo <= hi <= 35 && NulFree(f[1..35])
    ensures NulFree(f[lo..hi])
  {
    forall i | 0 <= i < hi - lo
      ensures f[lo..hi][i] != 0
    {
      assert f[lo..hi][i] == f[1..35][lo - 1 + i];
    }
  }

  /**
   * The inverse of Frame: a 37-byte frame with STX, ETX, no NUL in its
   * payload and a matching checksum yields the nine fields it carries;
   * anything else is rejected as corrupt.
   */
  function ParseFrame(f: seq<Byte>): (p: Option<Request>)
    ensures p.Some? <==> |f| == 37 && f[0] == STX && f[35] == ETX && NulFree(f[1..35]) && f[36] == Lrc(f[1..36])
  {
    if |f| == 37 && f[0] == STX && f[35] == ETX && NulFree(f[1..35]) && f[36] == Lrc(f[1..36]) then
      Some(Request(
        Some(Chars(FieldAt(f, 0))), Some(Chars(FieldAt(f, 1))), Some(Chars(FieldAt(f, 2))),
        Some(Chars(FieldAt(f, 3))), Some(Chars(FieldAt(f, 4))), Some(Chars(FieldAt(f, 5))),
        Some(Chars(FieldAt(f, 6))), Some(Chars(FieldAt(f, 7))), Some(Chars(FieldAt(f, 8)))))
    else None
  }

  /** Reading back the frame of an accepted request recovers the request. */
  lemma ParseFrameRoundTrip(r: Request)
    requires Validate(r).None?
    ensures ParseFrame(Frame(r)) == Some(r)
  {
    FrameShape(r);
    SpanOfAccepted(r);
    var f := Frame(r);
    assert f[1..35] == Span(r)[..34];
    forall k | 0 <= k < FIELDS
      ensures Chars(FieldAt(f, k)) == Fields(r)[k]
    {
      FrameLayout(r, k);
      CharsOfBytes(Fields(r)[k]);
    }
    ValidateFailFast(r, 0);
    assert FieldOk(r, 0) && FieldOk(r, 1) && FieldOk(r, 2) && FieldOk(r, 3) && FieldOk(r, 4);
    assert FieldOk(r, 5) && FieldOk(r, 6) && FieldOk(r, 7) && FieldOk(r, 8);
    assert NulFree(f[1..35]);
    assert ParseFrame(f).Some?;
    var fs := Fields(r);
    assert ParseFrame(f).value == Request(
      Some(fs[0]), Some(fs[1]), Some(fs[2]), Some(fs[3]), Some(fs[4]),
      Some(fs[5]), Some(fs[6]), Some(fs[7]), Some(fs[8]));
  }

  /** A frame whose last byte is not the XOR of bytes 1 .. 35 is rejected. */
  lemma ParseFrameRejectsBadChecksum(f: seq<Byte>)
    requires |f| == 37 && f[36] != Lrc(f[1..36])
    ensures ParseFrame(f).None?
  {
  }
}
