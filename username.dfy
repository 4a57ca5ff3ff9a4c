/**
 * User names: at most 100 bytes of ASCII letters and digits. The value object checks
 * a string as it is (`check_str`) or trims it and gathers every failed rule
 * (`from_unchecked`); the registration request checks characters only.
 */
module Usernames {
  import opened Wrappers
  import opened Text
  import opened Validation

  datatype UsernameError = Empty | Maxlen | InvalidChar

  /** The longest user name, in UTF-8 bytes. */
  const MaxBytes: nat := 100

  /** `char::is_ascii_punctuation`. */
  predicate IsAsciiPunctuation(c: char)
  {
    ('!' <= c <= '/') || (':' <= c <= '@') || ('[' <= c <= '`') || ('{' <= c <= '~')
  }

  /** `char::is_ascii_control`. */
  predicate IsAsciiControl(c: char)
  {
    (c as int) < 0x20 || (c as int) == 0x7F
  }

  /** `char::is_ascii_alphanumeric`. */
  predicate IsAsciiAlphanumeric(c: char)
  {
    ('0' <= c <= '9') || ('A' <= c <= 'Z') || ('a' <= c <= 'z')
  }

  /** `username_invalid_char`. */
  predicate InvalidUsernameChar(c: char)
  {
    !IsAscii(c) || IsWhitespace(c) || IsAsciiPunctuation(c) || IsAsciiControl(c) || c == '@'
  }

  /** The rule in other words: a user name may use ASCII letters and digits and nothing else. */
  lemma InvalidIffNotAlphanumeric(c: char)
    ensures InvalidUsernameChar(c) <==> !IsAsciiAlphanumeric(c)
  {
  }

  /** `str::contains(username_invalid_char)`. */
  predicate HasInvalidChar(s: string)
  {
    exists i :: 0 <= i < |s| && InvalidUsernameChar(s[i])
  }

  /** `Username::check_str`: emptiness, then the byte length, then the characters. */
  function CheckStr(s: string): (r: Result<(), UsernameError>)
    ensures r == Failure(Empty) <==> s == []
    ensures r == Failure(Maxlen) <==> s != [] && Utf8Len(s) > MaxBytes
    ensures r == Failure(InvalidChar) <==> s != [] && Utf8Len(s) <= MaxBytes && HasInvalidChar(s)
    ensures r.Success? <==> s != [] && Utf8Len(s) <= MaxBytes && !HasInvalidChar(s)
  {
    if s == [] then Failure(Empty)
    else if Utf8Len(s) > MaxBytes then Failure(Maxlen)
    else if HasInvalidChar(s) then Failure(InvalidChar)
    else Success(())
  }

  /** An accepted name is ASCII, so its byte length is its length: 1 to 100 characters. */
  lemma AcceptedIsShortAlphanumeric(s: string)
    ensures CheckStr(s).Success? <==>
      1 <= |s| <= MaxBytes && forall i :: 0 <= i < |s| ==> IsAsciiAlphanumeric(s[i])
  {
    Utf8LenAtLeastLength(s);
    if forall i :: 0 <= i < |s| ==> IsAsciiAlphanumeric(s[i]) {
      assert forall i :: 0 <= i < |s| ==> IsAscii(s[i]);
    }
  }

  /** `UsernameBuf`: a checked, trimmed user name. */
  datatype UsernameBuf = UsernameBuf(name: string)

  /** The messages `from_unchecked` gathers for the trimmed name `t`, in the order it checks. */
  function UncheckedErrors(t: string): seq<FieldError>
  {
    (if t == [] then [MinLen(Utf8Len(t), 1)] else [])
      + (if Utf8Len(t) > MaxBytes then [MaxLen(Utf8Len(t), 100)] else [])
      + (if HasInvalidChar(t) then [Custom("invalid chars")] else [])
  }

  /** The outcome of `from_unchecked`. */
  function FromUncheckedSpec(unchecked: string): Result<UsernameBuf, Error>
  {
    var t := Trim(unchecked);
    if UncheckedErrors(t) == [] then Success(UsernameBuf(t)) else Failure(Field(UncheckedErrors(t)))
  }

  /** `UsernameBuf::from_unchecked`: trims, then adds one message per failed rule. */
  method FromUnchecked(unchecked: string) returns (r: Result<UsernameBuf, Error>)
    ensures r == FromUncheckedSpec(unchecked)
  {
    var t := Trim(unchecked);
    var errors := new FieldErrors();
    if t == [] {
      errors.Add(MinLen(Utf8Len(t), 1));
    }
    assert errors.errors == if t == [] then [MinLen(Utf8Len(t), 1)] else [];
    if Utf8Len(t) > MaxBytes {
      errors.Add(MaxLen(Utf8Len(t), 100));
    }
    if HasInvalidChar(t) {
      errors.Add(Custom("invalid chars"));
    }
    assert errors.errors == UncheckedErrors(t);
    if errors.IsEmpty() {
      r := Success(UsernameBuf(t));
    } else {
      r := Failure(errors.Into());
    }
  }

  /**
   * `from_unchecked` accepts exactly what `check_str` accepts after trimming, keeps the
   * trimmed name, and otherwise reports one message per failed rule: at most two, as an
   * empty name is never too long.
   */
  lemma FromUncheckedAgreesWithCheckStr(unchecked: string)
    ensures var t := Trim(unchecked);
      var r := FromUncheckedSpec(unchecked);
      && (r.Success? <==> CheckStr(t).Success?)
      && (r.Success? ==> r.value.name == t)
      && (r.Failure? ==> r.error.Field? && 1 <= |r.error.errors| <= 2)
      && (CheckStr(t) == Failure(Empty) ==> r == Failure(Field([MinLen(0, 1)])))
  {
    UncheckedErrorsFacts(Trim(unchecked));
  }

  /** The messages for a name are empty exactly when `check_str` accepts it; there are at most two. */
  lemma UncheckedErrorsFacts(t: string)
    ensures UncheckedErrors(t) == [] <==> CheckStr(t).Success?
    ensures |UncheckedErrors(t)| <= 2
    ensures t == [] ==> UncheckedErrors(t) == [MinLen(0, 1)]
  {
    if t == [] {
      assert !HasInvalidChar(t);
      assert Utf8Len(t) == 0;
    } else {
      assert |UncheckedErrors(t)| <= 2;
    }
  }

  /** The result never has surrounding whitespace. */
  lemma StoredNameIsTrimmed(unchecked: string)
    requires FromUncheckedSpec(unchecked).Success?
    ensures var n := FromUncheckedSpec(unchecked).value.name;
      n != [] && !IsWhitespace(n[0]) && !IsWhitespace(n[|n| - 1])
  {
    var s := TrimStart(unchecked);
    var n := TrimEnd(s);
    TrimStartFacts(unchecked);
    TrimEndFacts(s);
    assert n == s[..|n|];
    assert n != [] ==> n[0] == s[0];
  }

  // ------------------------------------------------------- registration

  datatype ValidationError = ValidationError(code: string)

  /** `validate_username` of the registration request: characters only, so `""` passes. */
  function ValidateUsername(s: string): (r: Result<(), ValidationError>)
    ensures r.Failure? <==> HasInvalidChar(s)
    ensures r.Failure? ==> r.error.code == "invalid"
  {
    if HasInvalidChar(s) then Failure(ValidationError("invalid")) else Success(())
  }

  /**
   * The registration rules (`length(min = 1)` and `validate_username`) accept a name
   * exactly when `check_str` does, except that they have no upper bound.
   */
  lemma RegisterVersusCheckStr(s: string)
    ensures (|s| >= 1 && ValidateUsername(s).Success?) <==> CheckStr(s).Success? || (s != [] && Utf8Len(s) > MaxBytes && !HasInvalidChar(s))
    ensures ValidateUsername([]).Success?
  {
  }

  /** A name of ASCII letters and digits passes `validate_username`. */
  lemma AlphanumericPasses(s: string)
    requires forall i :: 0 <= i < |s| ==> IsAsciiAlphanumeric(s[i])
    ensures ValidateUsername(s).Success?
  {
  }

  /** The name to register: the request's name, or a copy of the user name when absent. */
  function RegisterName(name: Option<string>, username: string): (r: string)
    ensures name.Some? ==> r == name.value
    ensures name.None? ==> r == username
  {
    match name
    case Some(n) => n
    case None => username
  }
}
