/** The delay-range argument of check_follower.py: the `lower-upper` token
    that bounds, in seconds, the pause the client library takes between its
    requests. `delay_range_type` validates such a token and `is_delay`
    recognises its shape; both are inner functions of `get_input`. */
module DelayRange {
  import opened PyText

  /** A pair (lower, upper) of seconds. The fields are Python integers, so a
      negative or inverted pair is representable; ValidDelay is the check the
      source applies before accepting one. */
  datatype Delay = Delay(lower: int, upper: int)

  /** The delay used when no delay token is given. */
  const DEFAULT_DELAY := Delay(2, 5)

  /** The argument errors of `get_input`: the two messages of
      `argparse.ArgumentTypeError` raised by `delay_range_type`, and argparse's
      own refusal when the two required positionals are missing. */
  datatype ArgError =
    | MalformedDelay(token: string)
    | DelayOutOfRange(token: string)
    | MissingArguments

  datatype Result<T> = Ok(value: T) | Err(error: ArgError)

  /** Both bounds within 0..10 seconds and the lower one not above the upper. */
  predicate ValidDelay(d: Delay) {
    0 <= d.lower <= d.upper <= 10
  }

  /** The unpacking `lower, upper = map(int, value.split('-'))`: exactly two
      pieces, each accepted by `int()`; None stands for the ValueError.
      Because no piece of a split on '-' contains '-', no bound can come out
      negative. */
  function DelayBounds(token: string): (r: Option<Delay>)
    ensures r.Some? ==> r.value.lower >= 0 && r.value.upper >= 0
    ensures multiset(token)['-'] != 1 ==> r == None
  {
    var parts := Split(token, '-');
    SplitCount(token, '-');
    if |parts| != 2 then None
    else
      match (ParseInt(parts[0]), ParseInt(parts[1]))
      case (Some(lower), Some(upper)) => Some(Delay(lower, upper))
      case _ => None
  }

  /** `delay_range_type`: a malformed token and an out-of-range pair are both
      refused; what is accepted is a valid delay. */
  function DelayRangeType(token: string): (r: Result<Delay>)
    ensures r.Ok? ==> ValidDelay(r.value) && DelayBounds(token) == Some(r.value)
    ensures r.Err? ==> r.error in {MalformedDelay(token), DelayOutOfRange(token)}
    ensures r == Err(MalformedDelay(token)) <==> DelayBounds(token) == None
    ensures r.Ok? <==> DelayBounds(token).Some? && ValidDelay(DelayBounds(token).value)
    ensures multiset(token)['-'] != 1 ==> r == Err(MalformedDelay(token))
  {
    match DelayBounds(token)
    case None => Err(MalformedDelay(token))
    case Some(d) =>
      if d.lower < 0 || d.upper < 0 || d.lower > 10 || d.upper > 10 || d.lower > d.upper then
        Err(DelayOutOfRange(token))
      else
        Ok(d)
  }

  /** `is_delay`: the whole token matches `^\d+-\d+$`, digits, a dash, digits. */
  predicate IsDelay(s: string)
    ensures IsDelay(s) ==> |s| >= 3 && IsDigit(s[0]) && IsDigit(s[|s| - 1])
  {
    exists i | 0 < i < |s| - 1 :: s[i] == '-' && IsDigits(s[..i]) && IsDigits(s[i + 1..])
  }

  /** A string of digits holds no dash. */
  lemma DigitsHaveNoDash(x: string)
    requires IsDigits(x)
    ensures '-' !in x
  {
  }

  /** A token `x-y` made of two dash-free pieces splits into exactly them. */
  lemma SplitAtDash(x: string, y: string)
    requires '-' !in x && '-' !in y
    ensures Split(x + "-" + y, '-') == [x, y]
  {
    SplitJoin([x, y], '-');
    assert Join([x, y], '-') == x + "-" + y by {
      assert [x, y][1..] == [y];
    }
  }

  /** A token `x-y` of two dash-free pieces yields bounds exactly when
      `int()` accepts both pieces, and then their values; otherwise the
      unpacking raises ValueError. */
  lemma DelayBoundsOfPieces(x: string, y: string)
    requires '-' !in x && '-' !in y
    ensures DelayBounds(x + "-" + y) ==
            if ParseInt(x).Some? && ParseInt(y).Some?
            then Some(Delay(ParseInt(x).value, ParseInt(y).value))
            else None
  {
    SplitAtDash(x, y);
  }

  /** The bounds come from a token exactly when it is two dash-free pieces
      around a dash that `int()` turns into those bounds. */
  lemma DelayBoundsIffPieces(token: string, d: Delay)
    ensures DelayBounds(token) == Some(d) <==>
            exists x, y | token == x + "-" + y && '-' !in x && '-' !in y ::
              ParseInt(x) == Some(d.lower) && ParseInt(y) == Some(d.upper)
  {
    var parts := Split(token, '-');
    if DelayBounds(token) == Some(d) {
      SplitCount(token, '-');
      JoinSplit(token, '-');
      assert token == parts[0] + "-" + parts[1] by {
        assert parts[1..] == [parts[1]];
      }
      DelayBoundsOfPieces(parts[0], parts[1]);
    }
    if exists x, y | token == x + "-" + y && '-' !in x && '-' !in y ::
         ParseInt(x) == Some(d.lower) && ParseInt(y) == Some(d.upper) {
      var x, y :| token == x + "-" + y && '-' !in x && '-' !in y &&
                  ParseInt(x) == Some(d.lower) && ParseInt(y) == Some(d.upper);
      DelayBoundsOfPieces(x, y);
    }
  }

  /** A token with one dash whose pieces are not both integers, such as
      "a-1", "1-", "-5" or "1-x", is refused as malformed. */
  lemma NonIntegerPieceMalformed(x: string, y: string)
    requires '-' !in x && '-' !in y
    requires ParseInt(x).None? || ParseInt(y).None?
    ensures DelayRangeType(x + "-" + y) == Err(MalformedDelay(x + "-" + y))
  {
    DelayBoundsOfPieces(x, y);
  }

  /** "-5" splits into "" and "5"; `int('')` fails, so the token is
      malformed rather than a negative bound. */
  lemma NegativeNumberMalformed()
    ensures DelayRangeType("-5") == Err(MalformedDelay("-5"))
  {
    assert "-5" == "" + "-" + "5";
    NonIntegerPieceMalformed("", "5");
  }

  /** "a-1" has one dash, but `int('a')` fails. */
  lemma LetterPieceMalformed()
    ensures DelayRangeType("a-1") == Err(MalformedDelay("a-1"))
  {
    assert "a-1" == "a" + "-" + "1";
    assert "a"[0] == 'a' && !IsDigit("a"[0]);
    NonIntegerPieceMalformed("a", "1");
  }

  /** A token `x-y` of two digit strings parses to their values, and is
      accepted exactly when those values form a valid delay. */
  lemma DelayOfDigits(x: string, y: string)
    requires IsDigits(x) && IsDigits(y)
    ensures DelayBounds(x + "-" + y) == Some(Delay(DigitsValue(x), DigitsValue(y)))
    ensures DelayRangeType(x + "-" + y) ==
            if ValidDelay(Delay(DigitsValue(x), DigitsValue(y)))
            then Ok(Delay(DigitsValue(x), DigitsValue(y)))
            else Err(DelayOutOfRange(x + "-" + y))
  {
    DigitsHaveNoDash(x);
    DigitsHaveNoDash(y);
    SplitAtDash(x, y);
  }

  /** The token "a-b" written with the decimal numerals of a and b yields
      exactly (a, b) when 0 <= a <= b <= 10, and is refused as out of range
      when a > b or either bound exceeds 10. */
  lemma DelayOfNumbers(a: nat, b: nat)
    ensures DelayRangeType(Decimal(a) + "-" + Decimal(b)) ==
            if a <= b <= 10 then Ok(Delay(a, b))
            else Err(DelayOutOfRange(Decimal(a) + "-" + Decimal(b)))
  {
    DelayOfDigits(Decimal(a), Decimal(b));
  }

  /** Every token of two digit strings around a dash matches `^\d+-\d+$`. */
  lemma IsDelayOfDigits(x: string, y: string)
    requires IsDigits(x) && IsDigits(y)
    ensures IsDelay(x + "-" + y)
  {
    var s := x + "-" + y;
    assert s[|x|] == '-' && s[..|x|] == x && s[|x| + 1..] == y;
  }

  /** A token matching `^\d+-\d+$` splits on '-' into its two digit strings. */
  lemma IsDelaySplits(s: string)
    requires IsDelay(s)
    ensures var parts := Split(s, '-');
            |parts| == 2 && IsDigits(parts[0]) && IsDigits(parts[1])
  {
    var i :| 0 < i < |s| - 1 && s[i] == '-' && IsDigits(s[..i]) && IsDigits(s[i + 1..]);
    var x, y := s[..i], s[i + 1..];
    assert s == x + "-" + y;
    DigitsHaveNoDash(x);
    DigitsHaveNoDash(y);
    SplitAtDash(x, y);
  }

  /** A token that splits on '-' into two digit strings matches `^\d+-\d+$`. */
  lemma SplitsIsDelay(s: string)
    requires var parts := Split(s, '-');
             |parts| == 2 && IsDigits(parts[0]) && IsDigits(parts[1])
    ensures IsDelay(s)
  {
    var parts := Split(s, '-');
    JoinSplit(s, '-');
    assert s == parts[0] + "-" + parts[1] by {
      assert parts[1..] == [parts[1]];
    }
    IsDelayOfDigits(parts[0], parts[1]);
  }

  /** `is_delay` holds exactly when the token splits on '-' into two pieces
      that are both digit strings. */
  lemma IsDelayIffTwoDigitPieces(s: string)
    ensures IsDelay(s) <==>
            var parts := Split(s, '-');
            |parts| == 2 && IsDigits(parts[0]) && IsDigits(parts[1])
  {
    var parts := Split(s, '-');
    if IsDelay(s) {
      IsDelaySplits(s);
    }
    if |parts| == 2 && IsDigits(parts[0]) && IsDigits(parts[1]) {
      SplitsIsDelay(s);
    }
  }

  /** A token recognised by `is_delay` always parses into two bounds, so it
      can only be refused for its range, never as malformed. */
  lemma IsDelayParses(s: string)
    requires IsDelay(s)
    ensures DelayBounds(s).Some?
    ensures DelayRangeType(s) != Err(MalformedDelay(s))
  {
    IsDelaySplits(s);
  }

  /** The shape test does not imply validity: "3-1" matches `^\d+-\d+$` but
      is inverted. */
  lemma InvertedTokenMatchesShape()
    ensures IsDelay("3-1") && DelayRangeType("3-1") == Err(DelayOutOfRange("3-1"))
  {
    assert IsDigits("3") && DigitsValue("3") == 3;
    assert IsDigits("1") && DigitsValue("1") == 1;
    assert "3-1" == "3" + "-" + "1";
    IsDelayOfDigits("3", "1");
    DelayOfDigits("3", "1");
  }

  /** Nor for the range: "11-12" matches `^\d+-\d+$` but exceeds ten
      seconds. */
  lemma OversizedTokenMatchesShape()
    ensures IsDelay("11-12") && DelayRangeType("11-12") == Err(DelayOutOfRange("11-12"))
  {
    assert "11"[..1] == "1" && "12"[..1] == "1";
    assert IsDigits("11") && DigitsValue("11") == 11;
    assert IsDigits("12") && DigitsValue("12") == 12;
    assert "11-12" == "11" + "-" + "12";
    IsDelayOfDigits("11", "12");
    DelayOfDigits("11", "12");
  }

  /** "0-0" is accepted; the source only warns about it. */
  lemma ZeroDelayAccepted()
    ensures IsDelay("0-0") && DelayRangeType("0-0") == Ok(Delay(0, 0))
  {
    assert IsDigits("0") && DigitsValue("0") == 0;
    assert "0-0" == "0" + "-" + "0";
    IsDelayOfDigits("0", "0");
    DelayOfDigits("0", "0");
  }

  /** Validity does not imply the shape either: `int()` takes a leading `+`,
      so "+a-b" parses exactly like "a-b" (and "+1-2" is accepted as (1, 2)),
      yet `is_delay` never recognises it. */
  lemma SignedTokenBypassesShape(x: string, y: string)
    requires IsDigits(x) && IsDigits(y)
    ensures DelayRangeType("+" + x + "-" + y) ==
            if ValidDelay(Delay(DigitsValue(x), DigitsValue(y)))
            then Ok(Delay(DigitsValue(x), DigitsValue(y)))
            else Err(DelayOutOfRange("+" + x + "-" + y))
    ensures !IsDelay("+" + x + "-" + y)
  {
    var s := "+" + x + "-" + y;
    DigitsHaveNoDash(x);
    DigitsHaveNoDash(y);
    assert ("+" + x)[1..] == x;
    SplitAtDash("+" + x, y);
    forall i | 0 < i < |s| - 1
      ensures !(s[i] == '-' && IsDigits(s[..i]) && IsDigits(s[i + 1..]))
    {
      assert s[..i][0] == '+';
    }
  }

  /** A token without a dash, such as "3", is refused as malformed. */
  lemma SingleNumberMalformed()
    ensures DelayRangeType("3") == Err(MalformedDelay("3"))
  {
    assert multiset("3")['-'] == 0;
  }

  /** A token with two dashes, such as "1-2-3", is refused as malformed. */
  lemma ThreePiecesMalformed()
    ensures DelayRangeType("1-2-3") == Err(MalformedDelay("1-2-3"))
  {
    assert "1-2-3" == "1-2" + "-3";
    assert multiset("1-2-3")['-'] == 2;
  }

  /** A leading minus sign adds a piece instead of a negative bound: "-1-2"
      is refused as malformed and never reaches the range check. */
  lemma LeadingMinusMalformed()
    ensures DelayRangeType("-1-2") == Err(MalformedDelay("-1-2"))
  {
    assert "-1-2" == "-1" + "-2";
    assert multiset("-1-2")['-'] == 2;
  }
}
