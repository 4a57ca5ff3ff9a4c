/**
 * Paging parameters of list queries: a limit and an offset, 20 and 0 unless given.
 * `SelectSlice` takes optional signed numbers; `FlattenSlice` parses optional query
 * strings as unsigned 32-bit numbers.
 */
module Paging {
  import opened Wrappers
  import opened Text

  newtype i64 = x: int | -0x8000_0000_0000_0000 <= x < 0x8000_0000_0000_0000
  newtype u32 = x: int | 0 <= x < 0x1_0000_0000

  /** The largest `u32`. */
  const U32Max: int := 0xFFFF_FFFF

  const DefaultLimit: int := 20
  const DefaultOffset: int := 0

  // --------------------------------------------------------- select slice

  datatype PartialSlice = PartialSlice(limit: Option<i64>, offset: Option<i64>)

  datatype SelectSlice = SelectSlice(limit: i64, offset: i64)

  /** `SelectSlice::default`. */
  function Default(): (r: SelectSlice)
    ensures r.limit as int == DefaultLimit && r.offset as int == DefaultOffset
  {
    SelectSlice(20, 0)
  }

  /** `SelectSlice::from_partial`: each missing value takes its default, a given one is kept. */
  function FromPartial(partial: PartialSlice): (r: SelectSlice)
    ensures partial.limit.Some? ==> r.limit == partial.limit.value
    ensures partial.limit.None? ==> r.limit as int == DefaultLimit
    ensures partial.offset.Some? ==> r.offset == partial.offset.value
    ensures partial.offset.None? ==> r.offset as int == DefaultOffset
  {
    SelectSlice(
      match partial.limit case Some(l) => l case None => 20,
      match partial.offset case Some(o) => o case None => 0)
  }

  /** A partial slice with nothing in it is the default slice; any other is not always. */
  lemma EmptyPartialIsDefault(partial: PartialSlice)
    ensures FromPartial(partial) == Default() <==>
      partial.limit in {None, Some(20)} && partial.offset in {None, Some(0)}
  {
  }

  // -------------------------------------------------------- u32 parsing

  /** The kinds of `ParseIntError` a `u32` parse can give. */
  datatype IntErrorKind = Empty | InvalidDigit | PosOverflow

  /** The digits of a number: a single leading `+` is dropped. */
  function Digits(s: string): string
  {
    if s != [] && s[0] == '+' then s[1..] else s
  }

  /**
   * The digit loop of `u32::from_str`, left to right: a character that is not a digit
   * is an invalid digit, and a value past `u32::MAX` an overflow, whichever comes first.
   */
  function Accumulate(digits: string, acc: nat): Result<u32, IntErrorKind>
    requires acc <= U32Max
  {
    if digits == [] then Success(acc as u32)
    else if !IsDigit(digits[0]) then Failure(InvalidDigit)
    else
      var next := acc * 10 + ((digits[0] as int) - ('0' as int));
      if next > U32Max then Failure(PosOverflow) else Accumulate(digits[1..], next)
  }

  /** `str::parse::<u32>`. */
  function ParseU32(s: string): Result<u32, IntErrorKind>
  {
    if s == [] then Failure(Empty)
    else if s[0] == '+' && |s| == 1 then Failure(InvalidDigit)
    else Accumulate(Digits(s), 0)
  }

  /** The value the loop reaches reading all of `digits` after `acc`, without bound. */
  ghost function Continue(digits: string, acc: nat): nat
    requires forall i :: 0 <= i < |digits| ==> IsDigit(digits[i])
  {
    if digits == [] then acc
    else
      assert IsDigit(digits[0]);
      Continue(digits[1..], acc * 10 + ((digits[0] as int) - ('0' as int)))
  }

  lemma {:induction false} ContinueGrows(digits: string, acc: nat)
    requires forall i :: 0 <= i < |digits| ==> IsDigit(digits[i])
    ensures Continue(digits, acc) >= acc
  {
    if digits != [] {
      ContinueGrows(digits[1..], acc * 10 + ((digits[0] as int) - ('0' as int)));
    }
  }

  /** Reading more digits after a prefix is reading the longer number. */
  lemma {:induction false} ContinueDecimal(prefix: string, digits: string)
    requires forall i :: 0 <= i < |prefix| ==> IsDigit(prefix[i])
    requires forall i :: 0 <= i < |digits| ==> IsDigit(digits[i])
    ensures forall i :: 0 <= i < |prefix + digits| ==> IsDigit((prefix + digits)[i])
    ensures Continue(digits, DecimalValue(prefix)) == DecimalValue(prefix + digits)
    decreases |digits|
  {
    var all := prefix + digits;
    assert forall i :: 0 <= i < |all| ==> IsDigit(all[i]);
    if digits != [] {
      var longer := prefix + [digits[0]];
      assert longer[..|prefix|] == prefix;
      assert DecimalValue(longer) == DecimalValue(prefix) * 10 + ((digits[0] as int) - ('0' as int));
      ContinueDecimal(longer, digits[1..]);
      assert longer + digits[1..] == all;
    } else {
      assert all == prefix;
    }
  }

  /** On digits only, the loop fails exactly when the number is too large. */
  lemma {:induction false} AccumulateDigits(digits: string, acc: nat)
    requires acc <= U32Max
    requires forall i :: 0 <= i < |digits| ==> IsDigit(digits[i])
    ensures Continue(digits, acc) <= U32Max ==> Accumulate(digits, acc) == Success(Continue(digits, acc) as u32)
    ensures Continue(digits, acc) > U32Max ==> Accumulate(digits, acc) == Failure(PosOverflow)
  {
    if digits != [] {
      var next := acc * 10 + ((digits[0] as int) - ('0' as int));
      ContinueGrows(digits[1..], next);
      if next <= U32Max {
        AccumulateDigits(digits[1..], next);
      }
    }
  }

  /** A character that is not a digit makes the loop fail, unless it overflows first. */
  lemma {:induction false} AccumulateNonDigit(digits: string, acc: nat)
    requires acc <= U32Max
    requires exists i :: 0 <= i < |digits| && !IsDigit(digits[i])
    ensures Accumulate(digits, acc).Failure?
  {
    if IsDigit(digits[0]) {
      var next := acc * 10 + ((digits[0] as int) - ('0' as int));
      if next <= U32Max {
        var i :| 0 <= i < |digits| && !IsDigit(digits[i]);
        assert digits[1..][i - 1] == digits[i];
        AccumulateNonDigit(digits[1..], next);
      }
    }
  }

  /**
   * A string parses exactly when, after an optional `+`, it is a non-empty run of
   * digits whose value fits in 32 bits; the result is that value.
   */
  lemma ParseU32Iff(s: string)
    ensures var d := Digits(s);
      ParseU32(s).Success? <==>
        d != [] && (forall i :: 0 <= i < |d| ==> IsDigit(d[i])) && DecimalValue(d) <= U32Max
    ensures var d := Digits(s);
      ParseU32(s).Success? ==>
        (forall i :: 0 <= i < |d| ==> IsDigit(d[i])) && ParseU32(s).value as int == DecimalValue(d)
  {
    var d := Digits(s);
    if forall i :: 0 <= i < |d| ==> IsDigit(d[i]) {
      AccumulateDigits(d, 0);
      ContinueDecimal([], d);
      assert [] + d == d;
    } else {
      AccumulateNonDigit(d, 0);
    }
  }

  /** Every `u32` printed in decimal parses back to itself. */
  lemma ParseU32RoundTrip(n: u32)
    ensures ParseU32(NatToDecimal(n as nat)) == Success(n)
  {
    var s := NatToDecimal(n as nat);
    assert Digits(s) == s by { assert IsDigit(s[0]); }
    ParseU32Iff(s);
    DecimalRoundTrip(n as nat);
  }

  /** Text that is not a number is refused, whatever its value would be. */
  lemma ParseU32Rejects(s: string)
    ensures s == [] ==> ParseU32(s) == Failure(Empty)
    ensures s != [] && s[0] == '-' ==> ParseU32(s) == Failure(InvalidDigit)
  {
  }

  // -------------------------------------------------------- flatten slice

  datatype FlattenSlice = FlattenSlice(limit: u32, offset: u32)

  /** The query's two fields as text, each possibly absent. */
  datatype RawSlice = RawSlice(limit: Option<string>, offset: Option<string>)

  /** `parse_u32`: the default when the field is absent, else the field parsed. */
  function ParseField(s: Option<string>, default: u32): (r: Result<u32, IntErrorKind>)
    ensures s.None? ==> r == Success(default)
    ensures s.Some? ==> r == ParseU32(s.value)
  {
    match s
    case None => Success(default)
    case Some(text) => ParseU32(text)
  }

  /** `FlattenSlice::deserialize`: the limit (default 20), then the offset (default 0). */
  function Deserialize(raw: RawSlice): (r: Result<FlattenSlice, IntErrorKind>)
  {
    match ParseField(raw.limit, 20)
    case Failure(e) => Failure(e)
    case Success(limit) =>
      match ParseField(raw.offset, 0)
      case Failure(e) => Failure(e)
      case Success(offset) => Success(FlattenSlice(limit, offset))
  }

  /**
   * The slice is read when both fields are absent or parse; a bad limit is reported
   * before a bad offset; absent fields take 20 and 0.
   */
  lemma DeserializeFacts(raw: RawSlice)
    ensures Deserialize(raw).Success? <==>
      ParseField(raw.limit, 20).Success? && ParseField(raw.offset, 0).Success?
    ensures ParseField(raw.limit, 20).Failure? ==> Deserialize(raw) == Failure(ParseField(raw.limit, 20).error)
    ensures Deserialize(raw).Success? ==>
      && (raw.limit.None? ==> Deserialize(raw).value.limit as int == DefaultLimit)
      && (raw.offset.None? ==> Deserialize(raw).value.offset as int == DefaultOffset)
  {
  }

  /** Both fields given in decimal are read as given. */
  lemma DeserializeDecimal(limit: u32, offset: u32)
    ensures Deserialize(RawSlice(Some(NatToDecimal(limit as nat)), Some(NatToDecimal(offset as nat))))
      == Success(FlattenSlice(limit, offset))
  {
    ParseU32RoundTrip(limit);
    ParseU32RoundTrip(offset);
  }

  /** `can_deserialize_as_standalone`: `limit=10&offset=20` is (10, 20). */
  lemma StandaloneExample()
    ensures Deserialize(RawSlice(Some("10"), Some("20"))) == Success(FlattenSlice(10, 20))
  {
    DeserializeDecimal(10, 20);
    assert NatToDecimal(10) == "10" && NatToDecimal(20) == "20";
  }

  /** `can_deserialize_as_partial_flattened`: only `offset=12` is (20, 12). */
  lemma PartialExample()
    ensures Deserialize(RawSlice(None, Some("12"))) == Success(FlattenSlice(20, 12))
  {
    ParseU32RoundTrip(12);
    assert NatToDecimal(12) == "12";
  }
}
