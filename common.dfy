/** Values shared by the validation models, the middleware and the endpoints:
    optional values, results carrying an HTTP error, the decimal rendering of
    integers (Python's `str(int)`) and `sep.join(parts)`. */
module Common {

  datatype Option<+T> = None | Some(value: T)

  datatype Result<+T, +E> = Ok(value: T) | Err(error: E)

  /** An `HTTPException` / `JSONResponse` error: status code and detail text. */
  datatype HttpError = HttpError(status: int, detail: string)

  /** One entry of a validation library's `errors()` list: the location path
      (field names and list indices), the message and the error type. */
  datatype LocItem = Key(name: string) | Index(i: int)
  datatype ValidationIssue = ValidationIssue(loc: seq<LocItem>, msg: string, kind: string)

  /** The health-check path, which the rate limiter and the maintenance gate
      always let through. */
  const HealthPath := "/health"

  predicate IsDigit(c: char) { '0' <= c <= '9' }
  predicate IsLowerAscii(c: char) { 'a' <= c <= 'z' }
  predicate IsUpperAscii(c: char) { 'A' <= c <= 'Z' }

  /** `str.lower` on one character, restricted to ASCII letters. */
  function LowerChar(c: char): (d: char)
    ensures !IsUpperAscii(d)
    ensures IsUpperAscii(c) ==> IsLowerAscii(d) && d as int == c as int + 32
    ensures !IsUpperAscii(c) ==> d == c
  {
    if IsUpperAscii(c) then (c as int + 32) as char else c
  }

  /** `str.lower` on ASCII text: same length, each letter lowered, no upper-case left. */
  function ToLowerAscii(s: string): (r: string)
    ensures |r| == |s|
    ensures forall i :: 0 <= i < |s| ==> r[i] == LowerChar(s[i])
  {
    seq(|s|, i requires 0 <= i < |s| => LowerChar(s[i]))
  }

  /** Lower-casing twice is lower-casing once. */
  lemma ToLowerIdempotent(s: string)
    ensures ToLowerAscii(ToLowerAscii(s)) == ToLowerAscii(s)
  {
    var once := ToLowerAscii(s);
    assert forall i :: 0 <= i < |s| ==> ToLowerAscii(once)[i] == once[i];
  }

  /** Ceiling division as the source writes it, `(total + limit - 1) // limit`.
      For a positive divisor Dafny's `/` and Python's `//` agree. */
  function CeilDiv(total: int, limit: int): int
    requires limit > 0
  {
    (total + limit - 1) / limit
  }

  /** `CeilDiv` is the least number of `limit`-sized pages that reach `total`. */
  lemma CeilDivBounds(total: int, limit: int)
    requires limit > 0
    ensures CeilDiv(total, limit) * limit >= total
    ensures (CeilDiv(total, limit) - 1) * limit < total
  {
    var q, r := (total + limit - 1) / limit, (total + limit - 1) % limit;
    assert total + limit - 1 == q * limit + r && 0 <= r < limit;
    assert (q - 1) * limit == q * limit - limit;
  }

  function DigitChar(d: nat): (c: char)
    requires d < 10
    ensures IsDigit(c)
  {
    ['0','1','2','3','4','5','6','7','8','9'][d]
  }

  /** Decimal digits of a natural number, most significant first, no leading zero. */
  function NatToString(n: nat): (s: string)
    decreases n
  {
    if n < 10 then [DigitChar(n)] else NatToString(n / 10) + [DigitChar(n % 10)]
  }

  function DigitOf(c: char): nat
    requires IsDigit(c)
  {
    c as int - '0' as int
  }

  /** The value of a string of decimal digits. */
  function DigitsValue(s: string): nat
    requires forall i :: 0 <= i < |s| ==> IsDigit(s[i])
  {
    if s == [] then 0 else 10 * DigitsValue(s[..|s| - 1]) + DigitOf(s[|s| - 1])
  }

  /** `str(n)`: digits only, no leading zero, and reading the digits back gives `n`. */
  lemma {:induction false} NatToStringRoundTrip(n: nat)
    ensures |NatToString(n)| > 0
    ensures forall i :: 0 <= i < |NatToString(n)| ==> IsDigit(NatToString(n)[i])
    ensures NatToString(n)[0] == '0' ==> n == 0
    ensures DigitsValue(NatToString(n)) == n
  {
    if n >= 10 {
      NatToStringRoundTrip(n / 10);
      var s := NatToString(n);
      assert s[..|s| - 1] == NatToString(n / 10);
    }
  }

  /** Python's `str(i)` for an integer. */
  function IntToString(i: int): string
  {
    if i < 0 then "-" + NatToString(-i) else NatToString(i)
  }

  /** `str(i)` is a non-empty run of digits, after a '-' for a negative `i`. */
  lemma IntToStringChars(i: int)
    ensures |IntToString(i)| > 0
    ensures forall k :: 0 <= k < |IntToString(i)| ==> IsDigit(IntToString(i)[k]) || IntToString(i)[k] == '-'
    ensures IntToString(i)[0] == '-' <==> i < 0
  {
    var n: nat := if i < 0 then -i else i;
    var digits := NatToString(n);
    NatToStringRoundTrip(n);
    if i < 0 {
      var t := "-" + digits;
      assert IntToString(i) == t;
      assert forall k :: 1 <= k < |t| ==> t[k] == digits[k - 1];
    } else {
      assert IntToString(i) == digits;
    }
  }

  /** Different integers render differently. */
  lemma IntToStringInjective(a: int, b: int)
    requires IntToString(a) == IntToString(b)
    ensures a == b
  {
    IntToStringChars(a);
    IntToStringChars(b);
    var na: nat := if a < 0 then -a else a;
    var nb: nat := if b < 0 then -b else b;
    NatToStringRoundTrip(na);
    NatToStringRoundTrip(nb);
    if a < 0 {
      assert b < 0;
      assert NatToString(na) == IntToString(a)[1..];
      assert NatToString(nb) == IntToString(b)[1..];
    } else {
      assert b >= 0;
      assert NatToString(na) == IntToString(a);
      assert NatToString(nb) == IntToString(b);
    }
    assert na == nb;
  }

  /** Python's `sep.join(parts)`. */
  function Join(parts: seq<string>, sep: string): (r: string)
    ensures |parts| == 1 ==> r == parts[0]
  {
    if |parts| == 0 then ""
    else if |parts| == 1 then parts[0]
    else parts[0] + sep + Join(parts[1..], sep)
  }

  /** `str(loc)` for one component of an error location. */
  function LocItemString(item: LocItem): string
  {
    match item
    case Key(name) => name
    case Index(i) => IntToString(i)
  }

  function LocStrings(loc: seq<LocItem>): (r: seq<string>)
    ensures |r| == |loc|
    ensures forall k :: 0 <= k < |loc| ==> r[k] == LocItemString(loc[k])
  {
    if loc == [] then [] else [LocItemString(loc[0])] + LocStrings(loc[1..])
  }

  /** `'.'.join(str(loc) for loc in error['loc'])`. */
  function LocPath(loc: seq<LocItem>): (r: string)
    ensures loc == [] ==> r == ""
    ensures |loc| > 0 ==> |r| == TotalLength(LocStrings(loc)) + |loc| - 1
  {
    var parts := LocStrings(loc);
    if parts == [] then Join(parts, ".")
    else JoinLength(parts, "."); Join(parts, ".")
  }

  /** Sum of the lengths of the parts. */
  function TotalLength(parts: seq<string>): nat
  {
    if parts == [] then 0 else |parts[0]| + TotalLength(parts[1..])
  }

  /** A joined string is the parts plus one separator between each pair. */
  lemma {:induction false} JoinLength(parts: seq<string>, sep: string)
    requires |parts| > 0
    ensures |Join(parts, sep)| == TotalLength(parts) + (|parts| - 1) * |sep|
  {
    if |parts| > 1 {
      JoinLength(parts[1..], sep);
    }
  }
}
