/** The front ends' shared input validator: a length check, then a
    per-character check, with failures accumulated as error text. */
module Interface {

  /** A letter (ASCII letters only). */
  predicate IsAlpha(c: char) {
    ('a' <= c <= 'z') || ('A' <= c <= 'Z')
  }

  /** A decimal digit (ASCII digits only). */
  predicate IsDecimal(c: char) {
    '0' <= c <= '9'
  }

  /** A whitespace character (the ASCII ones: tab, line feed, vertical tab,
      form feed, carriage return, the four separators 0x1C-0x1F and space). */
  predicate IsSpace(c: char) {
    (9 <= c as int <= 13) || (0x1C <= c as int <= 0x1F) || c == ' '
  }

  /** One character may appear in an input: a letter or a digit always, a
      whitespace character exactly when whitespace is allowed. */
  predicate PermittedChar(c: char, allowWhitespaces: bool)
    ensures IsSpace(c) ==> (PermittedChar(c, allowWhitespaces) <==> allowWhitespaces)
    ensures IsAlpha(c) || IsDecimal(c) ==> PermittedChar(c, allowWhitespaces)
  {
    IsAlpha(c) || (allowWhitespaces && IsSpace(c)) || IsDecimal(c)
  }

  /** Every character of the input may appear in it, checked one character
      after the other. */
  predicate AllPermitted(userInput: string, allowWhitespaces: bool)
    ensures AllPermitted(userInput, allowWhitespaces) <==>
      forall i :: 0 <= i < |userInput| ==> PermittedChar(userInput[i], allowWhitespaces)
    decreases |userInput|
  {
    userInput == [] ||
    (PermittedChar(userInput[0], allowWhitespaces) && AllPermitted(userInput[1..], allowWhitespaces))
  }

  /** The three outcomes of a validation, in the order the checks run. */
  datatype Verdict = Accepted | WrongLength | WrongCharacters

  /** Which check an input fails first, if any. */
  function Validation(userInput: string, lengthCondition: nat -> bool, allowWhitespaces: bool): (v: Verdict)
    ensures v == Accepted <==> lengthCondition(|userInput|) && AllPermitted(userInput, allowWhitespaces)
    ensures v == WrongLength <==> !lengthCondition(|userInput|)
  {
    if !lengthCondition(|userInput|) then WrongLength
    else if !AllPermitted(userInput, allowWhitespaces) then WrongCharacters
    else Accepted
  }

  /** With whitespace disallowed, an input containing whitespace never passes. */
  lemma WhitespaceRejected(userInput: string, lengthCondition: nat -> bool, k: nat)
    requires k < |userInput| && IsSpace(userInput[k])
    ensures Validation(userInput, lengthCondition, false) != Accepted
  {
    assert !PermittedChar(userInput[k], false);
  }

  /** Whitespace is the only thing the flag adds: an input without
      whitespace gets the same verdict with or without it. */
  lemma WhitespaceFlagIrrelevant(userInput: string, lengthCondition: nat -> bool)
    requires forall i :: 0 <= i < |userInput| ==> !IsSpace(userInput[i])
    ensures Validation(userInput, lengthCondition, true) == Validation(userInput, lengthCondition, false)
  {
  }

  /** Under the name rule "at least one character" an empty name fails the length check. */
  lemma EmptyNameRejected()
    ensures Validation("", x => x > 0, true) == WrongLength
  {
  }

  /** Under the guess rule "exactly one character" a single letter or digit passes. */
  lemma SingleCharacterGuessAccepted(c: char)
    requires IsAlpha(c) || IsDecimal(c)
    ensures Validation([c], x => x == 1, false) == Accepted
  {
    assert PermittedChar([c][0], false);
  }

  class Base {
    /** Error text gathered since the last clear. */
    var errorMessage: string

    constructor()
      ensures errorMessage == ""
    {
      errorMessage := "";
    }

    /** Checks the length first and the characters second; the first failing
        check appends its message to the error text and the input is refused.
        Whitespace is refused unless the caller allows it. */
    method ValidateInput(userInput: string, lengthCondition: nat -> bool,
                         messageOnWrongLength: string, messageOnWrongCharacters: string,
                         allowWhitespaces: bool := false)
      returns (ok: bool)
      modifies this
      ensures ok <==> lengthCondition(|userInput|) && AllPermitted(userInput, allowWhitespaces)
      ensures !lengthCondition(|userInput|) ==>
        errorMessage == old(errorMessage) + messageOnWrongLength
      ensures lengthCondition(|userInput|) && !AllPermitted(userInput, allowWhitespaces) ==>
        errorMessage == old(errorMessage) + messageOnWrongCharacters
      ensures ok ==> errorMessage == old(errorMessage)
      ensures Validation(userInput, lengthCondition, allowWhitespaces) == Accepted <==> ok
    {
      var verdict := Validation(userInput, lengthCondition, allowWhitespaces);
      match verdict {
        case WrongLength =>
          errorMessage := errorMessage + messageOnWrongLength;
        case WrongCharacters =>
          errorMessage := errorMessage + messageOnWrongCharacters;
        case Accepted =>
      }
      ok := verdict == Accepted;
    }

    /** Forgets all gathered error text. */
    method ClearErrorMessage()
      modifies this
      ensures errorMessage == ""
    {
      errorMessage := "";
    }
  }

  /** Two refused inputs in a row leave both messages, in order, until the
      text is cleared. */
  method TwoFailuresAccumulate(lengthMessage: string, characterMessage: string)
    returns (gathered: string, cleared: string)
    ensures gathered == lengthMessage + characterMessage
    ensures cleared == ""
  {
    var validator := new Base();
    var ok1 := validator.ValidateInput("", x => x > 0, lengthMessage, characterMessage, true);
    assert !PermittedChar("a!"[1], false);
    var ok2 := validator.ValidateInput("a!", x => x > 0, lengthMessage, characterMessage);
    gathered := validator.errorMessage;
    validator.ClearErrorMessage();
    cleared := validator.errorMessage;
  }
}
