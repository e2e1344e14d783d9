# checkfollower_instagram — the argument parser and the set differencer, in Dafny

`check_follower.py` logs in to Instagram through the `instagrapi` client, fetches the
followers and the following of a target account, and lists two groups: the "fans" (followers
the target does not follow back) and the "fanning" (accounts the target follows that do not
follow back). Most of the file calls the client library or does I/O. This project models the
two parts whose logic belongs to the repository itself:

1. **The command line** (`get_input`). Its positional form is `<username> <password> [target] [delay]`.
   - `delay_range_type` parses a `lower-upper` token into a delay range in seconds and refuses a bad one.
   - `is_delay` recognises tokens that look like such a delay.
   - A disambiguation step then fixes the final (target, delay) pair.
2. **The differencer** (`get_solely_followers_following`). It reduces the followers and the
   following, each a map from user id to user, to sets of usernames. It returns the two
   asymmetric groups as lists.

Modules:

- `PyText` (`py_text.dfy`): the Python built-ins the parser relies on.
  - `str.split(sep)` is `Split`, with its inverse `Join`.
  - `int()` on a string is `ParseInt`: an optional sign, then ASCII digits.
  - `Decimal(n)` is the canonical numeral of n: `DigitsValue(Decimal(n)) == n`.
- `DelayRange` (`delay_range.dfy`): `DelayBounds` (the split-and-unpack step), `DelayRangeType`,
  `IsDelay`, and lemmas about them.
- `Input` (`get_input.dfy`): `ParseKnownArgs` models argparse assigning the positional
  tokens in order. `GetInput` is a method that updates the parsed namespace step by step, as
  the source does.
- `Differencer` (`differencer.dfy`): `Usernames` (the set comprehension), `ListWithout` (the
  list comprehension, a loop over a set in unspecified order), and `SolelyFollowersFollowing`.

Consequences of the code that the model keeps:

- argparse converts the fourth token with `delay_range_type` while it parses, so an invalid
  fourth token is refused even when the third token is a delay.
- In the target case, a fifth (leftover) token overrides the delay given by the fourth
  (check_follower.py:56-58).
- An empty third token is falsy, so it takes the target branch. It stays the target (`""`),
  because only `None` is replaced by the username (check_follower.py:53, 60).
- `int()` accepts a leading `+`, but `^\d+-\d+$` does not. So `"+1-2"` is a valid delay that
  `is_delay` rejects. As a third token it becomes the target.

## Model

| member | source | states |
|---|---|---|
| `PyText.ParseInt` | check_follower.py:20 | `int()` accepts exactly a digit string, optionally after one `+` or `-` sign, and refuses everything else (such as "", "a", "1a", "+"). Digits give their decimal value, `+` digits the same value, `-` digits its negation. A string without `-` never parses to a negative number. |
| `PyText.ParseStr` | check_follower.py:20 | Every integer's canonical numeral parses back to that integer. |
| `PyText.Split` | check_follower.py:20 | `value.split('-')` gives at least one piece, and no piece contains the separator. |
| `PyText.SplitCount` | check_follower.py:20 | The split has exactly one more piece than the token has dashes. |
| `PyText.JoinSplit` | check_follower.py:20 | Joining the pieces of a split with the separator gives back the token. |
| `PyText.SplitJoin` | check_follower.py:20 | Splitting a join of separator-free pieces gives back exactly those pieces. |
| `DelayRange.DelayBounds` | check_follower.py:19-22 | The unpacking yields bounds only for tokens with exactly one dash. Those bounds are never negative, so the negative tests at line 27 can never fire. |
| `DelayRange.DelayBoundsOfPieces` | check_follower.py:19-22 | For dash-free pieces x and y, "x-y" yields the bounds (int(x), int(y)) when `int()` accepts both pieces, and raises ValueError (no bounds) otherwise. |
| `DelayRange.DelayBoundsIffPieces` | check_follower.py:19-22 | A token yields the bounds d exactly when it is x + "-" + y for dash-free x and y that `int()` turns into d's lower and upper bound. |
| `DelayRange.DelayRangeType` | check_follower.py:17-30 | A token is refused as malformed exactly when the unpacking fails. It is accepted exactly when the unpacked bounds satisfy 0 <= lower <= upper <= 10, and then the result is those bounds. Every other token is refused as out of range. A token without exactly one dash is malformed. |
| `DelayRange.NonIntegerPieceMalformed` | check_follower.py:19-22 | A one-dash token with a piece `int()` refuses is refused as malformed. |
| `DelayRange.NegativeNumberMalformed` | check_follower.py:19-22 | "-5" is malformed: its first piece is empty, and `int('')` fails. |
| `DelayRange.LetterPieceMalformed` | check_follower.py:19-22 | "a-1" is malformed: `int('a')` fails. |
| `DelayRange.IsDelay` | check_follower.py:32-34 | ASCII digits, one dash, ASCII digits, as `^\d+-\d+$` matches them: a match is at least three characters long and, anchored at both ends, starts and ends with a digit. |
| `DelayRange.DelayOfDigits` | check_follower.py:19-30 | For digit strings x and y, "x-y" parses to their values. It is accepted exactly when those values form a valid range, and is otherwise refused as out of range. |
| `DelayRange.DelayOfNumbers` | check_follower.py:19-30 | The token "a-b" yields exactly (a, b) when 0 <= a <= b <= 10. It is refused as out of range when a > b or either bound exceeds 10. |
| `DelayRange.IsDelayOfDigits` | check_follower.py:32-34 | Any digit string, a dash, and a digit string together match `^\d+-\d+$`. |
| `DelayRange.IsDelaySplits` | check_follower.py:32-34 | A token matching the pattern splits on '-' into exactly two digit strings. |
| `DelayRange.SplitsIsDelay` | check_follower.py:32-34 | A token splitting into two digit strings matches the pattern. |
| `DelayRange.IsDelayIffTwoDigitPieces` | check_follower.py:32-34 | `is_delay` holds if and only if the token splits into two digit strings. |
| `DelayRange.IsDelayParses` | check_follower.py:17-34 | A token `is_delay` recognises always parses. It can be refused only for its range, never as malformed. |
| `DelayRange.InvertedTokenMatchesShape` | check_follower.py:27-34 | "3-1" matches the pattern but is refused as out of range (lower > upper). |
| `DelayRange.OversizedTokenMatchesShape` | check_follower.py:27-34 | "11-12" matches the pattern but is refused as out of range (above 10). |
| `DelayRange.ZeroDelayAccepted` | check_follower.py:24-30 | "0-0" matches the pattern and is accepted as (0, 0). The source only warns about it. |
| `DelayRange.SignedTokenBypassesShape` | check_follower.py:19-34 | "+x-y" is accepted or refused exactly as the values of x and y decide, yet `is_delay` never recognises it. |
| `DelayRange.SingleNumberMalformed` | check_follower.py:19-22 | "3" (no dash) is refused as malformed. |
| `DelayRange.ThreePiecesMalformed` | check_follower.py:19-22 | "1-2-3" (three pieces) is refused as malformed. |
| `DelayRange.LeadingMinusMalformed` | check_follower.py:19-22 | "-1-2" is refused as malformed: the leading minus adds a third piece, so no negative bound is produced. |
| `Input.ParseKnownArgs` | check_follower.py:36-50 | Parsing fails exactly when fewer than two tokens are given or the fourth token is not a valid delay. Tokens fill username, password and target in order. The delay is the fourth token's converted value, or (2, 5) without a fourth token, and is always valid. The extras are exactly the tokens after the fourth. |
| `Input.GetInput` | check_follower.py:12-64 | Each case gives its result. Two tokens give the username as target and the default delay (2, 5). A delay-shaped third token becomes the delay, with the username as target, whatever a valid fourth token or any later token says. Any other third token is the target, and its delay is the fifth token, else the fourth, else the default. The credentials are kept and a returned delay is always valid. |
| `Differencer.Usernames` | check_follower.py:139-140 | Every user's username is in the set, and every name in the set is the username of some user. |
| `Differencer.ListWithout` | check_follower.py:147-148 | The list holds exactly the names outside `common`, each once, in any order. |
| `Differencer.SolelyFollowersFollowing` | check_follower.py:134-150 | Fans are exactly the follower usernames not among the following usernames, and fanning the converse. Neither list repeats a name and the two are disjoint. \|fans\| + \|common\| = \|follower usernames\|, and likewise for fanning. Equal username sets leave both lists empty. |
| `Differencer.ScenarioMixed` | check_follower.py:134-150 | Followers {alice, bob, carol} and following {bob, dave} give fans {alice, carol} and fanning [dave]. |

## Left out

- `login_user` (check_follower.py:66-123): session-file loading and dumping, and login through the external `instagrapi.Client`. These are foreign calls and file-system work.
- `get_user_id`, `get_followers`, `get_following` (check_follower.py:125-132): one-line calls to the remote API. The fetched maps are the differencer's inputs.
- `save_results` and `to_stdout` (check_follower.py:152-206): directory creation, file writes (each name followed by a newline, in list order) and console output.
- `main` (check_follower.py:208-238): orchestration, `sys.exit(1)` when the target is not found, and wall-clock timing with floating-point `time.time()`.
- The warning messages: "Using no delay is not advised." and "No target specified". They are console output only.
- `PyText.ParseInt`: does not model the rest of what Python's `int()` accepts. That covers surrounding whitespace, `_` digit separators and non-ASCII decimal digits; the model covers ASCII only.
- `PyText.ParseInt`: does not model `int()`'s 4300-digit limit (Python 3.11 and later, and security releases of 3.7 to 3.10); a longer numeral raises ValueError, so such a token is malformed in the source and out of range here.
- `DelayRange.IsDelayParses`: holds only without that limit; a token `is_delay` accepts with a piece over 4300 digits is refused as malformed by the source.
- `DelayRange.IsDelay`: does not model Unicode digits matched by `\d`, nor `$` accepting one trailing newline. The model covers ASCII tokens without newlines.
- argparse beyond the positional assignment: option-like tokens (a `-` followed by something other than a negative number, such as "-1-2" or "-x") sorted into the extras; the `--` separator, which argparse drops while treating every later token as a positional, even "-x" (the model treats `--` as an ordinary token); `--help` and usage output. A command line is modelled as its sequence of positional tokens; "-5" and "-" are positionals in both.
- `Input.GetInput`: does not distinguish the two ways the program stops on a bad argument. A missing argument or a bad fourth token is refused by argparse, which prints usage and exits with status 2. A bad delay in the third or fifth token raises `ArgumentTypeError` from the direct calls at check_follower.py:54 and :58, outside argparse, which ends the program with a traceback and status 1. Both are the same `Err` result here.
- The order of the `fans` and `fanning` lists. It comes from Python's set iteration, so the model picks the next element arbitrarily and promises only the contents and the absence of duplicates.
