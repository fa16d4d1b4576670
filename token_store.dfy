/**
  The stored-token check (`getToken` in src/utils.ts): read the persisted
  token, reject it when it is missing or expired, otherwise hand it back
  unchanged. Reading local storage, JSON parsing, JWT decoding and the clock
  are outside calls; their outcomes are the inputs of `GetToken`.
 */
module TokenStore {
  import opened Wrappers

  /** What `JSON.parse` made of the stored text: it threw, or it gave a value.
      A missing key is parsed as the empty text and throws. The falsy JSON
      values (null, false, 0, "") all take the same branch and are written "". */
  datatype StoredJwt = Unparsable(message: string) | Parsed(token: string)

  /** What `jwt_decode` made of the token: it threw, the payload had no `exp`,
      or `exp` is the given second since the epoch. */
  datatype Claims = Undecodable(message: string) | WithoutExpiry | ExpiresAt(exp: int)

  datatype TokenError =
    | ParseFailed(message: string)
    | NotFound
    | DecodeFailed(message: string)
    | Expired

  const NotFoundMessage: string :=
    "The auth token could not be found in local memory. Please refresh to login again."
  const ExpiredMessage: string :=
    "The auth token has expired. Please refresh to login again."

  /** The `message` of the error `getToken` throws. */
  function Message(e: TokenError): string
  {
    match e
    case ParseFailed(m) => m
    case NotFound => NotFoundMessage
    case DecodeFailed(m) => m
    case Expired => ExpiredMessage
  }

  // ---- the clock: milliseconds, printed in decimal, last three digits dropped ----

  predicate IsDigits(s: string)
  {
    forall i :: 0 <= i < |s| ==> '0' <= s[i] <= '9'
  }

  function DigitChar(d: nat): (c: char)
    requires d < 10
    ensures '0' <= c <= '9' && c as int - '0' as int == d
  {
    ('0' as int + d) as char
  }

  /** `n.toString()` for a non-negative integer: most significant digit first. */
  function DecimalString(n: nat): (s: string)
    ensures |s| > 0 && IsDigits(s)
    decreases n
  {
    if n < 10 then [DigitChar(n)] else DecimalString(n / 10) + [DigitChar(n % 10)]
  }

  /** Unary `+` on a string of decimal digits; the empty string gives 0. */
  function ParseDecimal(s: string): nat
    requires IsDigits(s)
  {
    if s == [] then 0
    else ParseDecimal(s[..|s| - 1]) * 10 + (s[|s| - 1] as int - '0' as int)
  }

  /**
    `s.slice(0, -k)`: everything but the last `k` characters, or "" when there
    are at most `k`. For k = 0 the end index `-0` is 0, so the result is "".
   */
  function DropLast(s: string, k: nat): (r: string)
    ensures r <= s && |r| == (if 0 < k < |s| then |s| - k else 0)
  {
    if k == 0 || |s| <= k then [] else s[..|s| - k]
  }

  /** The current Unix second as the source computes it from the millisecond clock. */
  function NowSeconds(ms: nat): (sec: nat)
    ensures sec == ms / 1000
  {
    NowSecondsIsDivision(ms);
    ParseDecimal(DropLast(DecimalString(ms), 3))
  }

  /** Printing a number and reading it back gives the number. */
  lemma {:induction false} DecimalRoundTrip(n: nat)
    ensures ParseDecimal(DecimalString(n)) == n
    decreases n
  {
    var s := DecimalString(n);
    if n >= 10 {
      DecimalRoundTrip(n / 10);
      assert s[..|s| - 1] == DecimalString(n / 10);
    }
  }

  /** Numbers below 1000 print in at most three digits. */
  lemma {:induction false} ShortDecimal(n: nat)
    requires n < 1000
    ensures |DecimalString(n)| <= 3
  {
    if n >= 10 {
      ShortDecimal(n / 10);
      if n >= 100 {
        assert n / 10 >= 10 && n / 10 / 10 < 10;
      }
    }
  }

  /** For n of four digits or more, dropping three digits prints n / 1000. */
  lemma {:induction false} DropThreeDigits(n: nat)
    requires n >= 1000
    ensures DropLast(DecimalString(n), 3) == DecimalString(n / 1000)
  {
    var a, b, c := n / 10, n / 100, n / 1000;
    assert a / 10 == b && b / 10 == c by {
      assert n == 1000 * c + n % 1000;
      assert n % 1000 == 100 * (n % 1000 / 100) + n % 100;
    }
    var s := DecimalString(n);
    assert s == DecimalString(a) + [DigitChar(n % 10)];
    assert DecimalString(a) == DecimalString(b) + [DigitChar(a % 10)];
    assert DecimalString(b) == DecimalString(c) + [DigitChar(b % 10)];
    assert s == DecimalString(c) + [DigitChar(b % 10), DigitChar(a % 10), DigitChar(n % 10)];
  }

  /** The truncation of the printed clock is integer division by 1000, also below 1000. */
  lemma NowSecondsIsDivision(ms: nat)
    ensures ParseDecimal(DropLast(DecimalString(ms), 3)) == ms / 1000
  {
    if ms < 1000 {
      ShortDecimal(ms);
    } else {
      DropThreeDigits(ms);
      DecimalRoundTrip(ms / 1000);
    }
  }

  // ---- the decision ----

  /**
    `getToken`: a parse failure, a falsy token or a decode failure is an error;
    an `exp` strictly below the current second is `Expired`; anything else
    (including `exp` equal to the current second, or no `exp` at all) returns
    the stored token unchanged. Nothing is written back: an expired token stays
    where it is.
   */
  function GetToken(stored: StoredJwt, claims: Claims, nowMs: nat): (r: Result<string, TokenError>)
    ensures r.Ok? <==>
      stored.Parsed? && stored.token != "" &&
      (claims.WithoutExpiry? || (claims.ExpiresAt? && claims.exp >= nowMs / 1000))
    ensures r.Ok? ==> r.value == stored.token
    ensures r == Err(NotFound) <==> stored.Parsed? && stored.token == ""
    ensures r == Err(Expired) <==>
      stored.Parsed? && stored.token != "" && claims.ExpiresAt? && claims.exp < nowMs / 1000
    // the library's own error is passed on with its message
    ensures stored.Unparsable? ==> r == Err(ParseFailed(stored.message))
    ensures stored.Parsed? && stored.token != "" && claims.Undecodable? ==> r == Err(DecodeFailed(claims.message))
  {
    match stored
    case Unparsable(m) => Err(ParseFailed(m))
    case Parsed(token) =>
      if token == "" then Err(NotFound)
      else
        match claims
        case Undecodable(m) => Err(DecodeFailed(m))
        case WithoutExpiry => Ok(token)
        case ExpiresAt(exp) => if exp < NowSeconds(nowMs) then Err(Expired) else Ok(token)
  }
}
