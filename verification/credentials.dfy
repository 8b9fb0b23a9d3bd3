/**
 * The PIN gate: the check `save_pin` applies to a new PIN, and the
 * comparison the login and unlock dialogs make against the stored PIN.
 */
module Credentials {
  import opened Wrappers

  predicate IsDigit(c: char) {
    '0' <= c <= '9'
  }

  /** A well-formed PIN: exactly six digits. */
  predicate IsValidPin(s: string)
    ensures IsValidPin(s) <==> |s| == 6 && IsDigitString(s)
  {
    |s| == 6 && forall i :: 0 <= i < |s| ==> IsDigit(s[i])
  }

  /**
   * `str.isdigit()`, restricted to ASCII digits: false on the empty string,
   * otherwise true when every character is a digit.
   */
  function IsDigitString(s: string): (r: bool)
    ensures r <==> |s| > 0 && forall i :: 0 <= i < |s| ==> IsDigit(s[i])
  {
    |s| > 0 && IsDigit(s[0]) && (|s| == 1 || IsDigitString(s[1..]))
  }

  /** Why `save_pin` refuses or accepts a new PIN. */
  datatype PinCheck = NotSixDigits | Mismatch | Accepted

  /**
   * The two checks of `save_pin`, in the source's order: the format first
   * (length 6 and all digits), then equality with the confirmation.
   */
  function CheckNewPin(entered: string, confirm: string): (c: PinCheck)
    ensures c == NotSixDigits <==> !IsValidPin(entered)
    ensures c == Mismatch <==> IsValidPin(entered) && entered != confirm
    ensures c == Accepted <==> IsValidPin(entered) && entered == confirm
  {
    if |entered| != 6 || !IsDigitString(entered) then NotSixDigits
    else if entered != confirm then Mismatch
    else Accepted
  }

  /** Python's `not self.pin`: no PIN, or an empty one. */
  predicate NoPinHeld(pin: Option<string>) {
    pin == None || pin == Some("")
  }

  /**
   * `verify_pin` of the login and unlock dialogs: the typed text is compared
   * with the PIN the dialog was given, by plain string equality. With no PIN
   * loaded (None) nothing is accepted.
   */
  function PinAccepted(entered: string, stored: Option<string>): (ok: bool)
    ensures ok <==> stored == Some(entered)
  {
    match stored
    case None => false
    case Some(p) => entered == p
  }

  /**
   * Once a PIN has been created, the dialogs accept exactly that string,
   * so everything they accept is itself a six-digit PIN.
   */
  lemma CreatedPinIsTheOnlyKey(pin: string, confirm: string, candidate: string)
    requires CheckNewPin(pin, confirm) == Accepted
    ensures PinAccepted(candidate, Some(pin)) <==> candidate == pin
    ensures PinAccepted(candidate, Some(pin)) ==> IsValidPin(candidate)
  {
  }
}
