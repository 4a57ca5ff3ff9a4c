/**
 * Domain validation errors: a field's list of messages (`FieldErrors`), a structure's
 * errors keyed by field name (`StructErrors`), and the message constructors.
 */
module Validation {
  import opened Wrappers
  import opened Text

  /** One validation message. */
  datatype FieldError = FieldError(message: string)

  /** `Error`: the errors of one field, or of a structure's fields by name. */
  datatype Error = Field(errors: seq<FieldError>) | Struct(fields: map<string, Error>)

  /** `FieldError::minlen`: `min length is {expected}, got: {got}`. */
  function MinLen(got: nat, expected: nat): FieldError
  {
    FieldError("min length is " + NatToDecimal(expected) + ", got: " + NatToDecimal(got))
  }

  /** `FieldError::maxlen`: `max length is {expected}, got: {got}`. */
  function MaxLen(got: nat, expected: nat): FieldError
  {
    FieldError("max length is " + NatToDecimal(expected) + ", got: " + NatToDecimal(got))
  }

  /** `FieldError::len`: `length is {got}, expected: {expected}`, the actual length first. */
  function Len(got: nat, expected: nat): FieldError
  {
    FieldError("length is " + NatToDecimal(got) + ", expected: " + NatToDecimal(expected))
  }

  /** `FieldError::email`. */
  function Email(): FieldError
  {
    FieldError("invalid email")
  }

  /** `FieldError::custom`: the message as given. */
  function Custom(message: string): (r: FieldError)
    ensures r.message == message
  {
    FieldError(message)
  }

  /** Every character of `s` is a decimal digit. */
  predicate AllDigits(s: string)
  {
    forall i :: 0 <= i < |s| ==> IsDigit(s[i])
  }

  /** In digits followed by a comma, the first comma ends the digits. */
  lemma FirstCommaAfterDigits(d: string, x: string)
    requires AllDigits(d) && x != [] && x[0] == ','
    ensures IndexOf(d + x, ',') == Some(|d|)
  {
    var s := d + x;
    assert s[|d|] == ',';
    assert s[..|d|] == d;
    assert ',' !in d;
    assert forall k :: 0 <= k < |d| ==> s[k] == d[k];
  }

  /** A string of digits followed by a comma is read back unambiguously. */
  lemma DigitsThenComma(da: string, x: string, dc: string, y: string)
    requires AllDigits(da) && AllDigits(dc)
    requires x != [] && x[0] == ',' && y != [] && y[0] == ','
    requires da + x == dc + y
    ensures da == dc && x == y
  {
    FirstCommaAfterDigits(da, x);
    FirstCommaAfterDigits(dc, y);
    assert da == (da + x)[..|da|] && dc == (dc + y)[..|dc|];
    assert x == (da + x)[|da|..] && y == (dc + y)[|dc|..];
  }

  /**
   * A message of the shape `{head}{a}{sep}{b}`, where `sep` starts with a comma and
   * `a`, `b` are strings of digits, gives both strings back.
   */
  lemma TwoNumbersRead(head: string, sep: string, da: string, db: string, dc: string, dd: string)
    requires sep != [] && sep[0] == ','
    requires AllDigits(da) && AllDigits(dc)
    requires head + da + sep + db == head + dc + sep + dd
    ensures da == dc && db == dd
  {
    var x, y := sep + db, sep + dd;
    assert head + da + sep + db == head + (da + x);
    assert head + dc + sep + dd == head + (dc + y);
    assert da + x == dc + y by {
      assert da + x == (head + (da + x))[|head|..] && dc + y == (head + (dc + y))[|head|..];
    }
    DigitsThenComma(da, x, dc, y);
    assert db == x[|sep|..] && dd == y[|sep|..];
  }

  /** Equal decimal renderings mean equal numbers. */
  lemma DecimalInjective(a: nat, b: nat)
    requires NatToDecimal(a) == NatToDecimal(b)
    ensures a == b
  {
    DecimalRoundTrip(a);
    DecimalRoundTrip(b);
  }

  /** A `minlen` message determines both of its numbers. */
  lemma MinLenUnambiguous(got: nat, expected: nat, got': nat, expected': nat)
    requires MinLen(got, expected) == MinLen(got', expected')
    ensures got == got' && expected == expected'
  {
    TwoNumbersRead("min length is ", ", got: ", NatToDecimal(expected), NatToDecimal(got),
      NatToDecimal(expected'), NatToDecimal(got'));
    DecimalInjective(got, got');
    DecimalInjective(expected, expected');
  }

  /** A `maxlen` message determines both of its numbers. */
  lemma MaxLenUnambiguous(got: nat, expected: nat, got': nat, expected': nat)
    requires MaxLen(got, expected) == MaxLen(got', expected')
    ensures got == got' && expected == expected'
  {
    TwoNumbersRead("max length is ", ", got: ", NatToDecimal(expected), NatToDecimal(got),
      NatToDecimal(expected'), NatToDecimal(got'));
    DecimalInjective(got, got');
    DecimalInjective(expected, expected');
  }

  /** A `len` message determines both of its numbers. */
  lemma LenUnambiguous(got: nat, expected: nat, got': nat, expected': nat)
    requires Len(got, expected) == Len(got', expected')
    ensures got == got' && expected == expected'
  {
    TwoNumbersRead("length is ", ", expected: ", NatToDecimal(got), NatToDecimal(expected),
      NatToDecimal(got'), NatToDecimal(expected'));
    DecimalInjective(got, got');
    DecimalInjective(expected, expected');
  }

  /** The three kinds of length message never coincide. */
  lemma LengthMessagesDiffer(a: nat, b: nat, c: nat, d: nat)
    ensures MinLen(a, b) != MaxLen(c, d)
    ensures MinLen(a, b) != Len(c, d)
    ensures MaxLen(a, b) != Len(c, d)
  {
    assert MinLen(a, b).message[1] == 'i' && MaxLen(c, d).message[1] == 'a';
    assert MinLen(a, b).message[0] == 'm' && Len(c, d).message[0] == 'l';
    assert MaxLen(a, b).message[0] == 'm';
  }

  /** The message for a missing item: expected length first, then the actual one. */
  lemma MinLenExample()
    ensures MinLen(0, 1).message == "min length is 1, got: 0"
  {
    assert NatToDecimal(0) == "0" && NatToDecimal(1) == "1";
  }

  /** The message for 11 sub-categories. */
  lemma MaxLenExample()
    ensures MaxLen(11, 10).message == "max length is 10, got: 11"
  {
    TwoDigits(1, 0);
    TwoDigits(1, 1);
  }

  /** `len` prints the actual length first. */
  lemma LenExample()
    ensures Len(3, 4).message == "length is 3, expected: 4"
  {
    assert NatToDecimal(3) == "3" && NatToDecimal(4) == "4";
  }

  lemma TwoDigits(a: nat, b: nat)
    requires 1 <= a < 10 && b < 10
    ensures NatToDecimal(10 * a + b) == [DigitChar(a), DigitChar(b)]
  {
  }

  /** `FieldErrors`: the messages gathered for one field, in the order they were added. */
  class FieldErrors {
    var errors: seq<FieldError>

    /** `FieldErrors::default`. */
    constructor ()
      ensures errors == []
    {
      errors := [];
    }

    /** `add`: appends one message. */
    method Add(e: FieldError)
      modifies this
      ensures errors == old(errors) + [e]
    {
      errors := errors + [e];
    }

    /** `is_empty`: nothing was added. */
    function IsEmpty(): (r: bool)
      reads this
      ensures r <==> errors == []
    {
      |errors| == 0
    }

    /** `From<FieldErrors> for Error`. */
    function Into(): (r: Error)
      reads this
      ensures r.Field? && r.errors == errors
    {
      Field(errors)
    }
  }

  /** `StructErrors`: one error per field name. */
  class StructErrors {
    var fields: map<string, Error>

    /** `StructErrors::default`. */
    constructor ()
      ensures fields == map[]
    {
      fields := map[];
    }

    /** `add`: records the field's error, replacing any earlier one for that field. */
    method Add(field: string, error: Error)
      modifies this
      ensures fields == old(fields)[field := error]
      ensures field in fields && fields[field] == error
      ensures forall f :: f in old(fields) && f != field ==> f in fields && fields[f] == old(fields)[f]
      ensures fields.Keys == old(fields).Keys + {field}
    {
      fields := fields[field := error];
    }

    /** `is_empty`: no field was added. */
    function IsEmpty(): (r: bool)
      reads this
      ensures r <==> fields == map[]
    {
      |fields| == 0
    }

    /** `From<StructErrors> for Error`. */
    function Into(): (r: Error)
      reads this
      ensures r.Struct? && r.fields == fields
    {
      Struct(fields)
    }
  }

  /** Adding to a field twice keeps only the second error, and the count of fields once. */
  method StructErrorsReplace(field: string, first: Error, second: Error) returns (r: map<string, Error>)
    ensures r == map[field := second]
  {
    var errs := new StructErrors();
    errs.Add(field, first);
    errs.Add(field, second);
    r := errs.fields;
  }

  /** Messages come out in the order they were added. */
  method FieldErrorsInOrder(a: FieldError, b: FieldError) returns (r: seq<FieldError>, empty: bool)
    ensures r == [a, b] && !empty
  {
    var errs := new FieldErrors();
    errs.Add(a);
    errs.Add(b);
    r := errs.errors;
    empty := errs.IsEmpty();
  }
}
