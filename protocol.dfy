/**
 * Constants of the Concert payment-terminal protocol (concert.h): error
 * codes, the values the fields of a request may take, and the control
 * bytes of the serial frame.
 */
module Protocol {

  /** One octet on the serial line; C's `char` here is only ever a byte. */
  type Byte = bv8

  /**
   * A C string as the library sees it: a sequence of one-byte characters,
   * none of them NUL (the NUL is the terminator, not part of the string).
   */
  predicate IsCString(s: string) {
    forall i | 0 <= i < |s| :: 0 < s[i] as int < 256
  }

  type CStr = s: string | IsCString(s) witness ""

  /** No byte is NUL: the bytes can be read back as one C string. */
  predicate NulFree(b: seq<Byte>) {
    forall i | 0 <= i < |b| :: b[i] != 0
  }

  /** A C pointer argument: NULL, or a string. */
  datatype Option<+T> = None | Some(value: T)

  /** What a library call returns: a value, or one of the negative error codes below. */
  datatype Result<+T> = Ok(value: T) | Err(code: int)

  function Min(a: int, b: int): int {
    if a < b then a else b
  }

  // Error codes. CONCERT_ERROR is the generic transport/protocol failure;
  // every other code names the field or argument that was rejected.
  const ERROR: int := -1
  const ERROR_INVALID_CASH_REGISTER_ID: int := -2
  const ERROR_INVALID_AMOUNT: int := -3
  const ERROR_INVALID_INDICATOR: int := -4
  const ERROR_INVALID_MODE: int := -5
  const ERROR_INVALID_TYPE: int := -6
  const ERROR_INVALID_CURRENCY: int := -7
  const ERROR_INVALID_PRIVATE: int := -8
  const ERROR_INVALID_DELAY: int := -9
  const ERROR_INVALID_AUTHORIZATION: int := -10
  const ERROR_INVALID_DEVICE: int := -11

  /** The error codes in declaration order. */
  const ErrorCodes: seq<int> := [
    ERROR, ERROR_INVALID_CASH_REGISTER_ID, ERROR_INVALID_AMOUNT,
    ERROR_INVALID_INDICATOR, ERROR_INVALID_MODE, ERROR_INVALID_TYPE,
    ERROR_INVALID_CURRENCY, ERROR_INVALID_PRIVATE, ERROR_INVALID_DELAY,
    ERROR_INVALID_AUTHORIZATION, ERROR_INVALID_DEVICE
  ]

  // Field values.
  const INDICATOR_INCLUDE: CStr := "1"
  const INDICATOR_DO_NOT_INCLUDE: CStr := "0"
  const MODE_BANK_CARD: CStr := "1"
  const MODE_CHEQUE: CStr := "C"
  const TYPE_DEBIT: CStr := "0"
  const TYPE_CREDIT: CStr := "1"
  const CURRENCY_EUR: CStr := "978"
  const CURRENCY_USD: CStr := "840"
  const PRIVATE_EMPTY: CStr := "          "
  const DELAY_LATER: CStr := "A010"
  const DELAY_NOW: CStr := "A011"
  const AUTHORIZATION_AUTO: CStr := "B010"

  // Control bytes of the wire format.
  const STX: Byte := 0x02
  const ETX: Byte := 0x03
  const ENQ: Byte := 0x05
  const ACK: Byte := 0x06

  /** Size of the stack buffers the library uses (BUFSIZ of the C library). */
  const BUFSIZ: nat := 1024

  predicate IsDigit(c: char) {
    '0' <= c <= '9'
  }

  /** The property `concert_is_number` decides: every character is a decimal digit. */
  predicate AllDigits(s: string) {
    forall i | 0 <= i < |s| :: IsDigit(s[i])
  }

  /** Each error code is its own negative number, -1 .. -11, in declaration order. */
  lemma ErrorCodesAreDistinctNegatives()
    ensures |ErrorCodes| == 11
    ensures forall i | 0 <= i < |ErrorCodes| :: ErrorCodes[i] == -(i + 1)
    ensures forall i, j | 0 <= i < j < |ErrorCodes| :: ErrorCodes[i] != ErrorCodes[j]
  {
  }

  /** Modes and types are one character long, which is what the length-1 checks accept. */
  lemma ModeAndTypeConstantsAreSingleCharacters()
    ensures |MODE_BANK_CARD| == 1 && |MODE_CHEQUE| == 1 && MODE_BANK_CARD != MODE_CHEQUE
    ensures |TYPE_DEBIT| == 1 && |TYPE_CREDIT| == 1 && TYPE_DEBIT != TYPE_CREDIT
    ensures |INDICATOR_INCLUDE| == 1 && |INDICATOR_DO_NOT_INCLUDE| == 1
  {
  }

  /**
   * The delay codes are two distinct four-character codes; the
   * authorization code is four characters long and, being longer than
   * one character, equals neither payment mode.
   */
  lemma DelayAndAuthorizationConstants()
    ensures |DELAY_LATER| == 4 && |DELAY_NOW| == 4 && DELAY_LATER != DELAY_NOW
    ensures |AUTHORIZATION_AUTO| == 4
    ensures AUTHORIZATION_AUTO != MODE_BANK_CARD && AUTHORIZATION_AUTO != MODE_CHEQUE
  {
  }

  /** The blank private-data block is ten spaces; both currency codes are three digits. */
  lemma PrivateAndCurrencyConstants()
    ensures |PRIVATE_EMPTY| == 10 && forall i | 0 <= i < 10 :: PRIVATE_EMPTY[i] == ' '
    ensures |CURRENCY_EUR| == 3 && AllDigits(CURRENCY_EUR)
    ensures |CURRENCY_USD| == 3 && AllDigits(CURRENCY_USD)
  {
  }
}
