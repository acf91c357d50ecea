/**
  The text form of a version 1 read request: `[a,b,c] start duration`,
  built from Python's `str()` of each integer and encoded as ASCII.
  The parser here is the reference reading of that text; the round-trip
  lemma shows that the text determines the request it was built from.
 */
module AsciiText {
  import opened Bytes
  import opened Optional

  const MINUS: byte := 45
  const COMMA: byte := 44
  const SPACE: byte := 32
  const OPEN: byte := 91
  const CLOSE: byte := 93

  predicate IsDigit(b: byte)
  {
    48 <= b <= 57
  }

  predicate AllDigits(s: seq<byte>)
  {
    forall i :: 0 <= i < |s| ==> IsDigit(s[i])
  }

  /** Decimal digits of a natural number, most significant first, no leading zeros. */
  function NatText(x: nat): (r: seq<byte>)
    ensures |r| > 0 && IsDigit(r[0])
    ensures x >= 10 ==> r[0] != 48
  {
    if x < 10 then [(48 + x) as byte]
    else NatText(x / 10) + [(48 + x % 10) as byte]
  }

  /** Every byte of `NatText(x)` is a decimal digit. */
  lemma {:induction false} NatTextDigits(x: nat)
    ensures AllDigits(NatText(x))
  {
    if x >= 10 {
      NatTextDigits(x / 10);
    }
  }

  /** `str(x)` for a Python integer: a minus sign for negatives, then the digits. */
  function IntText(x: int): (r: seq<byte>)
    ensures |r| > 0 && (IsDigit(r[0]) || (r[0] == MINUS && x < 0))
  {
    if x < 0 then [MINUS] + NatText(-x) else NatText(x)
  }

  /** The number a run of decimal digits denotes. */
  function DigitsValue(ds: seq<byte>): nat
    requires AllDigits(ds)
  {
    if ds == [] then 0
    else 10 * DigitsValue(ds[..|ds| - 1]) + (ds[|ds| - 1] - 48) as nat
  }

  /** Length of the longest run of digits at the front of s. */
  function DigitRun(s: seq<byte>): (k: nat)
    ensures k <= |s| && AllDigits(s[..k])
    ensures k < |s| ==> !IsDigit(s[k])
  {
    if s == [] || !IsDigit(s[0]) then 0
    else
      var k := 1 + DigitRun(s[1..]);
      assert s[..k] == [s[0]] + s[1..][..k - 1];
      k
  }

  /** Reads a maximal run of at least one digit. */
  function ParseNat(s: seq<byte>): (r: Option<(nat, seq<byte>)>)
    ensures r.Some? ==> |r.value.1| < |s|
  {
    var k := DigitRun(s);
    if k == 0 then None else Some((DigitsValue(s[..k]), s[k..]))
  }

  /** Reads an optionally negative decimal integer. */
  function ParseInt(s: seq<byte>): (r: Option<(int, seq<byte>)>)
    ensures r.Some? ==> |r.value.1| < |s|
  {
    if |s| > 0 && s[0] == MINUS then
      match ParseNat(s[1..])
      case None => None
      case Some((v, rest)) => Some((-(v as int), rest))
    else
      match ParseNat(s)
      case None => None
      case Some((v, rest)) => Some((v as int, rest))
  }

  /** `','.join(str(x) for x in xs)` */
  function JoinText(xs: seq<int>): seq<byte>
  {
    if |xs| == 0 then []
    else if |xs| == 1 then IntText(xs[0])
    else IntText(xs[0]) + ([COMMA] + JoinText(xs[1..]))
  }

  /** Reads `x,y,...]`: one or more integers separated by commas, then the closing bracket. */
  function ParseItems(s: seq<byte>): Option<(seq<int>, seq<byte>)>
    decreases |s|
  {
    match ParseInt(s)
    case None => None
    case Some((v, rest)) =>
      if |rest| > 0 && rest[0] == CLOSE then Some(([v], rest[1..]))
      else if |rest| > 0 && rest[0] == COMMA then
        match ParseItems(rest[1..])
        case None => None
        case Some((vs, rest')) => Some(([v] + vs, rest'))
      else None
  }

  /** Reads a bracketed, comma-separated list of integers. */
  function ParseList(s: seq<byte>): Option<(seq<int>, seq<byte>)>
  {
    if |s| > 0 && s[0] == OPEN then
      if |s| > 1 && s[1] == CLOSE then Some(([], s[2..])) else ParseItems(s[1..])
    else None
  }

  /** The payload of a version 1 read request. */
  function ReadText(addresses: seq<int>, start: int, duration: int): seq<byte>
  {
    [OPEN] + JoinText(addresses) + [CLOSE, SPACE] + IntText(start) + [SPACE] + IntText(duration)
  }

  /** Reads back the three fields of a version 1 read request. */
  function ParseReadText(s: seq<byte>): Option<(seq<int>, int, int)>
  {
    match ParseList(s)
    case None => None
    case Some((xs, r1)) =>
      if |r1| == 0 || r1[0] != SPACE then None
      else match ParseInt(r1[1..])
        case None => None
        case Some((a, r2)) =>
          if |r2| == 0 || r2[0] != SPACE then None
          else match ParseInt(r2[1..])
            case None => None
            case Some((b, r3)) => if r3 == [] then Some((xs, a, b)) else None
  }

  /** A byte string that cannot continue a number. */
  predicate Delimited(rest: seq<byte>)
  {
    rest == [] || !IsDigit(rest[0])
  }

  lemma {:induction false} DigitsValueOfNatText(x: nat)
    ensures AllDigits(NatText(x)) && DigitsValue(NatText(x)) == x
  {
    NatTextDigits(x);
    if x >= 10 {
      var t := NatText(x);
      NatTextDigits(x / 10);
      assert t[..|t| - 1] == NatText(x / 10);
      DigitsValueOfNatText(x / 10);
    }
  }

  lemma {:induction false} DigitRunOfDigits(ds: seq<byte>, rest: seq<byte>)
    requires AllDigits(ds) && Delimited(rest)
    ensures DigitRun(ds + rest) == |ds|
  {
    if ds != [] {
      assert (ds + rest)[1..] == ds[1..] + rest;
      DigitRunOfDigits(ds[1..], rest);
    } else {
      assert ds + rest == rest;
    }
  }

  lemma ParseNatText(x: nat, rest: seq<byte>)
    requires Delimited(rest)
    ensures ParseNat(NatText(x) + rest) == Some((x, rest))
  {
    var t := NatText(x);
    NatTextDigits(x);
    DigitRunOfDigits(t, rest);
    assert (t + rest)[..|t|] == t;
    assert (t + rest)[|t|..] == rest;
    DigitsValueOfNatText(x);
  }

  /** A minus sign and digits read back as the negative number. */
  lemma ParseMinusText(n: nat, rest: seq<byte>)
    requires Delimited(rest)
    ensures ParseInt([MINUS] + NatText(n) + rest) == Some((-(n as int), rest))
  {
    var s := [MINUS] + NatText(n) + rest;
    assert s[1..] == NatText(n) + rest;
    ParseNatText(n, rest);
    ParseIntSigned(s, n, rest);
  }

  /** Digits alone read back as the number. */
  lemma ParseDigitsText(n: nat, rest: seq<byte>)
    requires Delimited(rest)
    ensures ParseInt(NatText(n) + rest) == Some((n, rest))
  {
    var s := NatText(n) + rest;
    assert s[0] == NatText(n)[0];
    ParseNatText(n, rest);
    ParseIntSigned(s, n, rest);
  }

  /** How `ParseInt` reads the sign in front of a run of digits. */
  lemma ParseIntSigned(s: seq<byte>, v: nat, rest: seq<byte>)
    requires |s| > 0
    requires s[0] == MINUS ==> ParseNat(s[1..]) == Some((v, rest))
    requires s[0] != MINUS ==> ParseNat(s) == Some((v, rest))
    ensures ParseInt(s) == Some((if s[0] == MINUS then -(v as int) else v as int, rest))
  {
  }

  /** `str` is read back by the integer parser, whatever non-digit follows. */
  lemma ParseIntText(x: int, rest: seq<byte>)
    requires Delimited(rest)
    ensures ParseInt(IntText(x) + rest) == Some((x, rest))
  {
    if x < 0 {
      ParseMinusText(-x, rest);
    } else {
      ParseDigitsText(x, rest);
    }
  }

  /** The last item of a list: its number, then the closing bracket. */
  lemma ParseItemsLast(x: int, rest: seq<byte>)
    ensures ParseItems(IntText(x) + ([CLOSE] + rest)) == Some(([x], rest))
  {
    ParseIntText(x, [CLOSE] + rest);
    assert ([CLOSE] + rest)[1..] == rest;
  }

  /** An item followed by a comma: its number, then the items after the comma. */
  lemma ParseItemsNext(x: int, tail: seq<byte>)
    ensures ParseItems(IntText(x) + ([COMMA] + tail))
            == match ParseItems(tail)
               case None => None
               case Some((vs, rest')) => Some(([x] + vs, rest'))
  {
    ParseIntText(x, [COMMA] + tail);
    assert ([COMMA] + tail)[1..] == tail;
  }

  lemma {:induction false} ParseJoinText(xs: seq<int>, rest: seq<byte>)
    requires |xs| > 0
    ensures ParseItems(JoinText(xs) + [CLOSE] + rest) == Some((xs, rest))
    decreases |xs|
  {
    var s := JoinText(xs) + [CLOSE] + rest;
    if |xs| == 1 {
      assert s == IntText(xs[0]) + ([CLOSE] + rest);
      ParseItemsLast(xs[0], rest);
      assert [xs[0]] == xs;
    } else {
      var tail := JoinText(xs[1..]) + [CLOSE] + rest;
      assert s == IntText(xs[0]) + ([COMMA] + tail);
      ParseItemsNext(xs[0], tail);
      ParseJoinText(xs[1..], rest);
      assert [xs[0]] + xs[1..] == xs;
    }
  }

  lemma JoinTextHead(xs: seq<int>)
    requires |xs| > 0
    ensures |JoinText(xs)| > 0 && JoinText(xs)[0] != CLOSE
  {
    if |xs| > 1 {
      HeadOfConcat(IntText(xs[0]), [COMMA] + JoinText(xs[1..]));
    }
  }

  lemma HeadOfConcat(t: seq<byte>, u: seq<byte>)
    requires |t| > 0
    ensures |t + u| > 0 && (t + u)[0] == t[0]
  {
  }

  lemma ParseListText(xs: seq<int>, rest: seq<byte>)
    ensures ParseList([OPEN] + JoinText(xs) + [CLOSE] + rest) == Some((xs, rest))
  {
    var body := JoinText(xs) + [CLOSE] + rest;
    var s := [OPEN] + body;
    assert [OPEN] + JoinText(xs) + [CLOSE] + rest == s;
    assert s[1..] == body;
    if |xs| == 0 {
      assert s == [OPEN, CLOSE] + rest;
    } else {
      JoinTextHead(xs);
      assert s[1] == JoinText(xs)[0];
      ParseJoinText(xs, rest);
    }
  }

  /** The request text as the list, then the rest after the closing bracket. */
  lemma ReadTextShape(addresses: seq<int>, start: int, duration: int)
    ensures ReadText(addresses, start, duration)
            == [OPEN] + JoinText(addresses) + [CLOSE] + ([SPACE] + (IntText(start) + ([SPACE] + IntText(duration))))
  {
  }

  /** The version 1 request text gives back exactly the addresses, start and duration it was built from. */
  lemma ReadTextRoundTrip(addresses: seq<int>, start: int, duration: int)
    ensures ParseReadText(ReadText(addresses, start, duration)) == Some((addresses, start, duration))
  {
    var r2 := [SPACE] + IntText(duration);
    var r1 := [SPACE] + (IntText(start) + r2);
    ReadTextShape(addresses, start, duration);
    ParseListText(addresses, r1);
    ParseIntText(start, r2);
    ParseIntText(duration, []);
    assert r1[1..] == IntText(start) + r2;
    assert r2[1..] == IntText(duration) + [];
  }
}
