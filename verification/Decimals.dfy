/** Amounts are carried as text. This module gives them their numeric meaning: the one of
    `big.Int.SetString(s, 10)` and `strconv.ParseInt(s, 10, 64)`, an optional sign and then digits. */
module Decimals {
  import opened GoRuntime

  predicate IsDigit(c: char) {
    '0' <= c <= '9'
  }

  predicate IsDigits(s: string) {
    s != "" && forall i :: 0 <= i < |s| ==> IsDigit(s[i])
  }

  /** No superfluous leading zero. */
  predicate IsCanonical(s: string) {
    IsDigits(s) && (s[0] == '0' ==> |s| == 1)
  }

  function Digit(c: char): (d: nat)
    requires IsDigit(c)
    ensures d < 10
  {
    c as int - '0' as int
  }

  function Magnitude(s: string): (n: nat)
    requires forall i :: 0 <= i < |s| ==> IsDigit(s[i])
    ensures n == 0 <==> forall i :: 0 <= i < |s| ==> s[i] == '0'
  {
    if s == "" then 0
    else
      assert s == s[..|s| - 1] + [s[|s| - 1]];
      10 * Magnitude(s[..|s| - 1]) + Digit(s[|s| - 1])
  }

  function Parse(s: string): (r: Option<int>)
  {
    if s != "" && s[0] == '-' then
      var magnitude: int := if IsDigits(s[1..]) then Magnitude(s[1..]) else 0;
      if IsDigits(s[1..]) then Some(-magnitude) else None
    else if s != "" && s[0] == '+' then
      if IsDigits(s[1..]) then Some(Magnitude(s[1..])) else None
    else
      if IsDigits(s) then Some(Magnitude(s)) else None
  }

  function ParseInt64(s: string): (r: Option<int64>)
  {
    match Parse(s)
    case Some(v) => if -TWO_63 <= v < TWO_63 then Some(v) else None
    case None => None
  }

  predicate IsSigned(s: string) {
    s != "" && (s[0] == '-' || s[0] == '+') && IsDigits(s[1..])
  }

  /** Numbers are digits with at most one sign, each digit worth ten times the next; a plus sign changes
      nothing, and what an int64 cannot hold is refused. */
  lemma ParseExact(s: string)
    ensures Parse(s).Some? <==> IsDigits(s) || IsSigned(s)
    ensures IsSigned(s) && s[0] == '+' ==> Parse(s) == Parse(s[1..])
    ensures IsSigned(s) && s[0] == '-' ==> Parse(s[1..]).Some? && Parse(s) == Some(-Parse(s[1..]).value)
    ensures forall v: int64 :: ParseInt64(s) == Some(v) <==> Parse(s) == Some(v)
  {
  }

  /** Every digit in its place. */
  lemma ParseDigits()
    ensures Parse("9876543210") == Some(9876543210)
  {
    assert "9876543210"[..9] == "987654321" && "987654321"[..8] == "98765432" && "98765432"[..7] == "9876543";
    assert "9876543"[..6] == "987654" && "987654"[..5] == "98765" && "98765"[..4] == "9876";
    assert "9876"[..3] == "987" && "987"[..2] == "98" && "98"[..1] == "9" && "9"[..0] == "";
    assert Magnitude("98765") == 98765;
  }

  /** The canonical digits of a number, as `big.Int.String` writes them. */
  function Render(n: nat): (s: string)
    ensures s != ""
  {
    var last := ('0' as int + n % 10) as char;
    if n < 10 then [last] else Render(n / 10) + [last]
  }

  function RenderInt(v: int): string {
    if v < 0 then "-" + Render(-v) else Render(v)
  }

  lemma {:induction false} RenderCanonical(n: nat)
    ensures IsCanonical(Render(n)) && Magnitude(Render(n)) == n
    ensures n > 0 ==> Render(n)[0] != '0'
  {
    var s := Render(n);
    if n >= 10 {
      RenderCanonical(n / 10);
      assert s[..|s| - 1] == Render(n / 10) && s[0] == Render(n / 10)[0];
    }
  }

  /** Reading back what was written. */
  lemma RenderParse(v: int)
    ensures Parse(RenderInt(v)) == Some(v)
    ensures -TWO_63 <= v < TWO_63 ==> ParseInt64(RenderInt(v)) == Some(v)
    ensures Value(RenderInt(v)) == v
    ensures v >= 0 ==> IsCanonical(RenderInt(v))
    ensures v < 0 ==> RenderInt(v)[0] == '-' && IsCanonical(RenderInt(v)[1..]) && RenderInt(v)[1] != '0'
  {
    RenderCanonical(if v < 0 then -v else v);
    if v < 0 {
      assert ("-" + Render(-v))[1..] == Render(-v);
    }
  }

  /** Writing what was read: a canonical text is the one text of its number. */
  lemma {:induction false} ParseRender(s: string)
    requires IsCanonical(s)
    ensures Render(Magnitude(s)) == s
  {
    var n := |s| - 1;
    assert s == s[..n] + [s[n]];
    if n > 0 {
      assert s[..n][0] == s[0];
      ParseRender(s[..n]);
    }
  }

  /** The value posted for an amount: nothing when the text is no number. */
  function Value(s: string): int {
    match Parse(s)
    case Some(v) => v
    case None => 0
  }

  /** Prefixing a minus sign makes a number exactly of the unsigned digit strings, and negates it
      ("-0" being zero). */
  lemma MinusSign(s: string)
    ensures Parse("-" + s).Some? <==> IsDigits(s)
    ensures IsDigits(s) ==> Value("-" + s) == -Value(s) && Value(s) >= 0
  {
    assert ("-" + s)[1..] == s;
  }

  /** The two legs `"-" + s` and `s` cancel exactly when `s` is unsigned digits or is worth nothing. */
  lemma LegsCancel(s: string)
    ensures Value("-" + s) + Value(s) == 0 <==> IsDigits(s) || Value(s) == 0
  {
    MinusSign(s);
  }

  /** The textual test against "0" is the numeric one exactly when `s` is no padded zero. */
  lemma ZeroTest(s: string)
    requires IsDigits(s)
    ensures (s == "0" <==> Value(s) == 0) <==> !(|s| > 1 && forall i :: 0 <= i < |s| ==> s[i] == '0')
    ensures IsCanonical(s) ==> (s == "0" <==> Value(s) == 0)
  {
    if |s| == 1 {
      assert s == [s[0]];
    }
  }
}
