/** The PIN pad of the login page: four digits, then either a new PIN is
    stored (setup mode, no PIN yet) or the PIN is checked. */
module Login {
  import opened Dates
  import opened Models
  import opened Storage
  import opened Security

  /** The number of digits of a PIN. */
  const PinLength := 4

  /** The title shown in the mode. */
  function ModeTitle(isSetupMode: bool): string {
    if isSetupMode then "Setup New PIN" else "Secure Journal"
  }

  /** The prompt shown in the mode. */
  function ModePrompt(isSetupMode: bool): string {
    if isSetupMode then "Create a 4-digit PIN" else "Enter Your PIN"
  }

  class LoginViewModel {
    const security: SecurityService
    var pin: string
    var statusMessage: string
    var isSetupMode: bool
    var titleText: string

    /** The store the PIN lives in is ready and the hash has its contract. */
    ghost predicate Ready()
      reads this, security.db
    {
      security.db.Valid() && security.HashValid()
    }

    /** The page as it opens: setup mode exactly when no PIN is set. */
    constructor(security: SecurityService)
      modifies security.db
      requires security.db.Valid() && security.HashValid()
      ensures this.security == security && Ready()
      ensures pin == "" && isSetupMode == !PinIsSet(security.db.users)
      ensures titleText == ModeTitle(isSetupMode) && statusMessage == ModePrompt(isSetupMode)
      ensures security.db.ReadOnly()
    {
      this.security := security;
      pin := "";
      statusMessage := "Enter PIN";
      isSetupMode := false;
      titleText := "Welcome";
      new;
      CheckStatus();
    }

    /** Setup mode exactly when no PIN is set, with the mode's title and prompt. */
    method CheckStatus()
      modifies this, security.db
      requires Ready()
      ensures Ready() && security.db.ReadOnly()
      ensures isSetupMode == !PinIsSet(security.db.users)
      ensures titleText == ModeTitle(isSetupMode) && statusMessage == ModePrompt(isSetupMode)
      ensures pin == old(pin)
    {
      var isSet := security.IsPinSet();
      isSetupMode := !isSet;
      if isSetupMode {
        titleText := "Setup New PIN";
        statusMessage := "Create a 4-digit PIN";
      } else {
        titleText := "Secure Journal";
        statusMessage := "Enter Your PIN";
      }
    }

    /** The state after submitting entered: in setup mode the PIN is stored
        and the pad cleared for a first login; otherwise the PIN is accepted,
        or refused and cleared. */
    twostate predicate Submitted(entered: string, now: DateTime)
      reads this, security.db
    {
      if old(isSetupMode) then
        && security.db.users == SetPinUsers(old(security.db.users), old(security.db.nextUserId),
                                             security.hashPin(entered), now)
        && PinAccepted(security.db.users, security.hashPin(entered))
        && security.db.Opened() && security.db.EntriesKept() && security.db.TagsKept()
        && !isSetupMode && pin == "" && titleText == "Secure Journal"
        && statusMessage == "PIN Set! Enter to Login"
      else
        && security.db.ReadOnly()
        && isSetupMode == old(isSetupMode) && titleText == old(titleText)
        && (PinAccepted(old(security.db.users), security.hashPin(entered)) ==>
              statusMessage == "Success!" && pin == entered)
        && (!PinAccepted(old(security.db.users), security.hashPin(entered)) ==>
              statusMessage == "Incorrect PIN" && pin == "")
    }

    /** Stores or checks the entered PIN, as the mode says. */
    method SubmitPin(now: DateTime)
      modifies this, security.db
      requires Ready()
      ensures Ready()
      ensures Submitted(old(pin), now)
    {
      if isSetupMode {
        security.SetPin(pin, now);
        isSetupMode := false;
        pin := "";
        titleText := "Secure Journal";
        statusMessage := "PIN Set! Enter to Login";
      } else {
        var isValid := security.VerifyPin(pin);
        if isValid {
          statusMessage := "Success!";
        } else {
          statusMessage := "Incorrect PIN";
          pin := "";
        }
      }
    }

    /** Appends a digit while fewer than four are entered, and submits the
        PIN as soon as it has four. With one character per key the pad never
        holds more than four. */
    method AddDigit(digit: string, now: DateTime)
      modifies this, security.db
      requires Ready()
      ensures Ready()
      ensures |old(pin)| >= PinLength ==>
                pin == old(pin) && statusMessage == old(statusMessage)
                && isSetupMode == old(isSetupMode) && titleText == old(titleText)
                && unchanged(security.db)
      ensures |old(pin)| < PinLength && |old(pin) + digit| != PinLength ==>
                pin == old(pin) + digit && statusMessage == old(statusMessage)
                && isSetupMode == old(isSetupMode) && titleText == old(titleText)
                && unchanged(security.db)
      ensures |old(pin)| < PinLength && |old(pin) + digit| == PinLength ==>
                Submitted(old(pin) + digit, now)
      ensures |digit| == 1 && |old(pin)| <= PinLength ==> |pin| <= PinLength
    {
      if |pin| < PinLength {
        pin := pin + digit;
        if |pin| == PinLength {
          SubmitPin(now);
        }
      }
    }

    /** Empties the pad and shows the mode's prompt again. */
    method Clear()
      modifies this
      ensures pin == "" && statusMessage == ModePrompt(isSetupMode)
      ensures isSetupMode == old(isSetupMode) && titleText == old(titleText)
    {
      pin := "";
      statusMessage := if isSetupMode then "Create a 4-digit PIN" else "Enter Your PIN";
    }
  }
}
