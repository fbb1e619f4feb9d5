/** Question-id parsing (getQid) and the question URL that get_question
    rebuilds from an id. Python's int() and str() on integers are modelled on
    strings of ASCII decimal digits with an optional sign. */
module Qid {
  import opened Common

  /** The 31-character prefix getQid compares the start of a URL with. */
  const QuestionPrefix: string := "https://www.zhihu.com/question/"

  predicate IsDigit(c: char) { '0' <= c <= '9' }

  predicate AllDigits(s: string) { forall i :: 0 <= i < |s| ==> IsDigit(s[i]) }

  /** The number a string of decimal digits denotes (leading zeros allowed). */
  function DigitsValue(s: string): (n: nat)
    requires AllDigits(s)
  {
    if s == [] then 0 else DigitsValue(s[..|s| - 1]) * 10 + (s[|s| - 1] as int - '0' as int)
  }

  function DigitChar(d: nat): (c: char)
    requires d < 10
    ensures IsDigit(c) && c as int - '0' as int == d
  {
    ('0' as int + d) as char
  }

  /** Python's str() of a non-negative int: its shortest decimal numeral. */
  function NatToString(n: nat): (s: string)
    ensures s != [] && AllDigits(s)
    ensures s[0] == '0' ==> n == 0
  {
    if n < 10 then [DigitChar(n)] else NatToString(n / 10) + [DigitChar(n % 10)]
  }

  /** Python's str() of an int. */
  function IntToString(i: int): (s: string)
    ensures s != []
  {
    if i < 0 then "-" + NatToString(-i) else NatToString(i)
  }

  /** Python's int() on a string: an optional sign followed by at least one
      decimal digit; anything else raises ValueError. */
  function ParseInt(s: string): (r: Result<int>)
    ensures r.Err? ==> r.error == ValueError
    ensures r.Ok? <==> (s != [] && (if s[0] == '-' || s[0] == '+' then s[1..] != [] && AllDigits(s[1..]) else AllDigits(s)))
  {
    var negative := s != [] && s[0] == '-';
    var digits := if s != [] && (s[0] == '-' || s[0] == '+') then s[1..] else s;
    if digits != [] && AllDigits(digits) then
      var magnitude: int := DigitsValue(digits);
      Ok(if negative then -magnitude else magnitude)
    else
      Err(ValueError)
  }

  /** Python's slice s[0:n] for n >= 0: it stops at the end of a shorter string. */
  function Head(s: string, n: nat): (r: string)
    ensures |r| == Min(n, |s|) && r == s[..|r|]
  {
    if |s| <= n then s else s[..n]
  }

  /** Python's slice s[n:] for n >= 0: empty when the string is shorter. */
  function Tail(s: string, n: nat): (r: string)
    ensures |s| >= n ==> r == s[n..]
    ensures |s| < n ==> r == []
  {
    if |s| <= n then [] else s[n..]
  }

  /** getQid: the number following the question prefix, or 0 for a URL that
      does not start with it. A prefixed URL whose remainder is not an integer
      makes int() raise ValueError. */
  function GetQid(url: string): (r: Result<int>)
    ensures |url| >= |QuestionPrefix| && url[..|QuestionPrefix|] == QuestionPrefix ==>
              r == ParseInt(url[|QuestionPrefix|..])
    ensures !(|url| >= |QuestionPrefix| && url[..|QuestionPrefix|] == QuestionPrefix) ==>
              r == Ok(0)
  {
    var temp := Head(url, 31);
    if temp == QuestionPrefix then ParseInt(Tail(url, 31)) else Ok(0)
  }

  /** The page get_question requests for a question id. */
  function QuestionUrl(qid: int): (url: string)
    ensures |url| > |QuestionPrefix| && url[..|QuestionPrefix|] == QuestionPrefix
  {
    QuestionPrefix + IntToString(qid)
  }

  lemma {:induction false} DigitsRoundTrip(n: nat)
    ensures DigitsValue(NatToString(n)) == n
  {
    if n >= 10 {
      var s := NatToString(n);
      assert s[..|s| - 1] == NatToString(n / 10);
      DigitsRoundTrip(n / 10);
    }
  }

  /** int(str(i)) == i for every integer. */
  lemma ParseIntRoundTrip(i: int)
    ensures ParseInt(IntToString(i)) == Ok(i)
  {
    var s := IntToString(i);
    if i < 0 {
      assert s[1..] == NatToString(-i);
      DigitsRoundTrip(-i);
    } else {
      assert IsDigit(s[0]);
      DigitsRoundTrip(i);
    }
  }

  /** get_question's URL for a question id parses back to that id. */
  lemma GetQidRoundTrip(qid: int)
    ensures GetQid(QuestionUrl(qid)) == Ok(qid)
  {
    var url := QuestionUrl(qid);
    assert url[|QuestionPrefix|..] == IntToString(qid);
    ParseIntRoundTrip(qid);
  }

  /** A URL shorter than the prefix is never parsed: the sentinel 0 comes back. */
  lemma GetQidShortUrl(url: string)
    requires |url| < |QuestionPrefix|
    ensures GetQid(url) == Ok(0)
  {
  }

  /** The sentinel is ambiguous: question 0 and an unparsed URL give the same id. */
  lemma GetQidSentinelAmbiguous(url: string)
    requires |url| < |QuestionPrefix| || url[..|QuestionPrefix|] != QuestionPrefix
    ensures GetQid(QuestionUrl(0)) == GetQid(url) == Ok(0)
  {
    GetQidRoundTrip(0);
  }

  /** A prefixed URL with nothing after the prefix makes int('') raise. */
  lemma GetQidBarePrefix()
    ensures GetQid(QuestionPrefix) == Err(ValueError)
  {
  }
}
