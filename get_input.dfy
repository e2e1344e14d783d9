/** `get_input` of check_follower.py: the positional command line
    `<username> <password> [target] [delay]` is parsed by argparse, and then a
    delay token given in the target position is moved to the delay, and an
    absent target falls back to the logged-in account. */
module Input {
  import opened PyText
  import opened DelayRange

  /** The fields of the namespace argparse returns. */
  datatype Namespace = Namespace(username: string, password: string, target: Option<string>, delay: Delay)

  /** What `get_input` returns: (username, password, target, delay). */
  datatype Inputs = Inputs(username: string, password: string, target: string, delay: Delay)

  /** `parser.parse_known_args()` on the positional tokens: the first two are
      required; the next fills `target`; the next fills `delay` and is
      converted by `delay_range_type` at once, so a bad one is refused here;
      whatever follows is returned unparsed as the extras. */
  function ParseKnownArgs(tokens: seq<string>): (r: Result<(Namespace, seq<string>)>)
    ensures r.Ok? <==> |tokens| >= 2 && (|tokens| >= 4 ==> DelayRangeType(tokens[3]).Ok?)
    ensures r.Ok? ==> ValidDelay(r.value.0.delay)
    ensures r.Ok? ==> r.value.0.username == tokens[0] && r.value.0.password == tokens[1]
    ensures r.Ok? ==> (r.value.0.target.Some? <==> |tokens| >= 3)
    ensures r.Ok? && |tokens| >= 3 ==> r.value.0.target == Some(tokens[2])
    ensures r.Ok? ==> r.value.0.delay == if |tokens| >= 4 then DelayRangeType(tokens[3]).value else DEFAULT_DELAY
    ensures r.Ok? ==> r.value.1 == if |tokens| > 4 then tokens[4..] else []
    ensures r.Ok? ==> |tokens| == 4 + |r.value.1| || (|tokens| <= 4 && r.value.1 == [])
  {
    if |tokens| < 2 then Err(MissingArguments)
    else
      var target := if |tokens| >= 3 then Some(tokens[2]) else None;
      var delay := if |tokens| >= 4 then DelayRangeType(tokens[3]) else Ok(DEFAULT_DELAY);
      var extras := if |tokens| > 4 then tokens[4..] else [];
      match delay
      case Err(e) => Err(e)
      case Ok(d) => Ok((Namespace(tokens[0], tokens[1], target, d), extras))
  }

  /** The delay of the target case: an extra fifth token overrides the fourth,
      which overrides the default. */
  function TrailingDelay(tokens: seq<string>): Result<Delay> {
    if |tokens| >= 5 then DelayRangeType(tokens[4])
    else if |tokens| == 4 then DelayRangeType(tokens[3])
    else Ok(DEFAULT_DELAY)
  }

  /** `get_input`, step by step as the source overwrites the namespace:
      parse, then either take a delay-shaped target as the delay and clear
      the target, or let the first extra token override the delay; finally
      fill an absent target with the username. */
  method GetInput(tokens: seq<string>) returns (r: Result<Inputs>)
    // argparse refuses a short command line and a bad fourth token first
    ensures |tokens| < 2 ==> r == Err(MissingArguments)
    ensures |tokens| >= 4 && DelayRangeType(tokens[3]).Err? ==> r == Err(DelayRangeType(tokens[3]).error)
    // whatever is returned keeps the credentials and a valid delay
    ensures r.Ok? ==> r.value.username == tokens[0] && r.value.password == tokens[1]
    ensures r.Ok? ==> ValidDelay(r.value.delay)
    // no target: the logged-in account with the default delay
    ensures |tokens| == 2 ==> r == Ok(Inputs(tokens[0], tokens[1], tokens[0], DEFAULT_DELAY))
    // a delay-shaped third token is the delay, the target is the username
    ensures |tokens| >= 3 && IsDelay(tokens[2]) && (|tokens| >= 4 ==> DelayRangeType(tokens[3]).Ok?) ==>
            r == match DelayRangeType(tokens[2])
                 case Ok(d) => Ok(Inputs(tokens[0], tokens[1], tokens[0], d))
                 case Err(e) => Err(e)
    // any other third token is the target, and the last delay token wins
    ensures |tokens| >= 3 && !IsDelay(tokens[2]) && (|tokens| >= 4 ==> DelayRangeType(tokens[3]).Ok?) ==>
            r == match TrailingDelay(tokens)
                 case Ok(d) => Ok(Inputs(tokens[0], tokens[1], tokens[2], d))
                 case Err(e) => Err(e)
  {
    var parsed := ParseKnownArgs(tokens);
    if parsed.Err? {
      return Err(parsed.error);
    }
    var args, extras := parsed.value.0, parsed.value.1;
    if args.target.Some? && args.target.value != [] && IsDelay(args.target.value) {
      var delay := DelayRangeType(args.target.value);
      if delay.Err? {
        return Err(delay.error);
      }
      args := args.(delay := delay.value, target := None);
    } else if |extras| > 0 {
      var delay := DelayRangeType(extras[0]);
      if delay.Err? {
        return Err(delay.error);
      }
      args := args.(delay := delay.value);
    }
    if args.target == None {
      args := args.(target := Some(args.username));
    }
    return Ok(Inputs(args.username, args.password, args.target.value, args.delay));
  }
}
