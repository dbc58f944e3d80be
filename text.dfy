/** The string plumbing the board wire format relies on: the decimal rendering
    of Integer.toString, the parsing of Integer.parseInt (radix 10), the token
    splitting of String.split(" ") and the whitespace stripping of String.trim. */
module Text {

  datatype Option<T> = None | Some(value: T)

  /** A Java `int`. */
  type Int32 = x: int | -0x8000_0000 <= x < 0x8000_0000

  predicate IsDigit(c: char) { '0' <= c <= '9' }

  predicate AllDigits(s: string) { forall i | 0 <= i < |s| :: IsDigit(s[i]) }

  function DigitChar(d: nat): (c: char)
    requires d < 10
    ensures IsDigit(c) && DigitValue(c) == d
  {
    (48 + d) as char
  }

  function DigitValue(c: char): nat
    requires IsDigit(c)
  {
    c as int - 48
  }

  /** Value of a string of decimal digits, most significant first. */
  function DigitsValue(s: string): nat
    requires AllDigits(s)
  {
    if s == [] then 0 else DigitsValue(s[..|s| - 1]) * 10 + DigitValue(s[|s| - 1])
  }

  /** Decimal digits of a non-negative number, without leading zeros. */
  function NatToString(n: nat): (r: string)
    ensures |r| >= 1 && AllDigits(r)
  {
    if n < 10 then [DigitChar(n)] else NatToString(n / 10) + [DigitChar(n % 10)]
  }

  /** Integer.toString: a minus sign for negative values, then the digits. */
  function IntToString(n: int): (r: string)
    ensures |r| >= 1 && (r[0] == '-' <==> n < 0)
    ensures forall i | 0 <= i < |r| :: IsDigit(r[i]) || (i == 0 && n < 0)
  {
    if n < 0 then "-" + NatToString(-n) else NatToString(n)
  }

  /** Integer.parseInt(s): an optional sign, at least one decimal digit, and a
      value that fits in an int; anything else is a NumberFormatException (None). */
  function ParseInt(s: string): (r: Option<Int32>)
    ensures r.Some? ==> |s| >= 1 && IsDigit(s[|s| - 1]) && s[0] != ' '
    ensures r.Some? ==> forall i | 1 <= i < |s| :: IsDigit(s[i])
    ensures r.Some? && r.value < 0 ==> s[0] == '-'
    ensures AllDigits(s) && |s| >= 1 && DigitsValue(s) < 0x8000_0000 ==> r == Some(DigitsValue(s))
  {
    if |s| == 0 then None
    else
      var digits := if s[0] == '-' || s[0] == '+' then s[1..] else s;
      if |digits| == 0 || !AllDigits(digits) then None
      else
        var v: int := if s[0] == '-' then 0 - DigitsValue(digits) else DigitsValue(digits);
        if -0x8000_0000 <= v < 0x8000_0000 then Some(v) else None
  }

  /** What a successful parseInt accepted: a sign or a digit, then digits
      only; the value is that of the digits, negated after a minus sign. */
  lemma ParseIntAccepts(s: string)
    requires ParseInt(s).Some?
    ensures s[0] == '-' || s[0] == '+' || IsDigit(s[0])
    ensures AllDigits(s[1..])
    ensures s[0] == '-' ==> ParseInt(s).value == 0 - DigitsValue(s[1..])
    ensures s[0] == '+' ==> ParseInt(s).value == DigitsValue(s[1..])
    ensures IsDigit(s[0]) ==> ParseInt(s).value == DigitsValue(s)
  {
  }

  lemma {:induction false} NatToStringDigits(n: nat)
    ensures |NatToString(n)| >= 1 && AllDigits(NatToString(n))
    ensures DigitsValue(NatToString(n)) == n
  {
    if n >= 10 {
      NatToStringDigits(n / 10);
      var s := NatToString(n / 10) + [DigitChar(n % 10)];
      assert s[..|s| - 1] == NatToString(n / 10);
    }
  }

  /** parseInt reads back every int that toString renders. */
  lemma ParseIntToString(n: Int32)
    ensures ParseInt(IntToString(n)) == Some(n)
  {
    var m: nat := if n < 0 then -(n as int) else n;
    var d := NatToString(m);
    NatToStringDigits(m);
    assert IsDigit(d[0]);
    if n < 0 {
      var s := "-" + d;
      assert s[1..] == d;
      assert ParseInt(s) == Some(n);
    } else {
      assert ParseInt(d) == Some(n);
    }
  }

  /** A rendered int is a non-empty token whose first and last characters are
      neither a space nor any other character trim removes. */
  lemma IntToStringShape(n: int)
    ensures var s := IntToString(n); |s| >= 1 && ' ' !in s && s[0] > ' ' && s[|s| - 1] > ' '
  {
    var m := if n < 0 then -n else n;
    NatToStringDigits(m);
    var s := IntToString(n);
    assert forall i | 0 <= i < |s| :: s[i] == '-' || IsDigit(s[i]);
  }

  // ---------------------------------------------------------------------------
  // Joining with single spaces, String.split(" ") and String.trim

  /** Tokens separated by single spaces. */
  function Join(ts: seq<string>): string
  {
    if |ts| == 0 then ""
    else if |ts| == 1 then ts[0]
    else Join(ts[..|ts| - 1]) + " " + ts[|ts| - 1]
  }

  /** Index of the last space in s. */
  function LastSpace(s: string): (i: nat)
    requires ' ' in s
    ensures i < |s| && s[i] == ' ' && ' ' !in s[i + 1..]
  {
    if s[|s| - 1] == ' ' then |s| - 1
    else
      assert ' ' in s[..|s| - 1] by {
        var k :| 0 <= k < |s| && s[k] == ' ';
        assert s[..|s| - 1][k] == ' ';
      }
      LastSpace(s[..|s| - 1])
  }

  /** The maximal space-free segments of s, including empty ones. */
  function Pieces(s: string): (ps: seq<string>)
    ensures |ps| >= 1 && SpaceFree(ps)
  {
    if ' ' !in s then [s]
    else
      var i := LastSpace(s);
      Pieces(s[..i]) + [s[i + 1..]]
  }

  function DropTrailingEmpty(ts: seq<string>): (r: seq<string>)
    ensures |r| <= |ts| && r == ts[..|r|]
    ensures r == [] || r[|r| - 1] != ""
  {
    if |ts| > 0 && ts[|ts| - 1] == "" then DropTrailingEmpty(ts[..|ts| - 1]) else ts
  }

  /** String.split(" "): a string without a space is its own single token;
      otherwise the segments between spaces, with trailing empty ones removed. */
  function Split(s: string): (r: seq<string>)
    ensures SpaceFree(r)
    ensures ' ' !in s ==> r == [s]
    ensures ' ' in s ==> r == [] || r[|r| - 1] != ""
  {
    if ' ' !in s then [s] else DropTrailingEmpty(Pieces(s))
  }

  function TrimEnd(s: string): (r: string)
    ensures |r| <= |s| && r == s[..|r|]
    ensures r == [] || r[|r| - 1] > ' '
  {
    if |s| > 0 && s[|s| - 1] <= ' ' then TrimEnd(s[..|s| - 1]) else s
  }

  function TrimStart(s: string): (r: string)
    ensures |r| <= |s| && r == s[|s| - |r|..]
    ensures r == [] || r[0] > ' '
  {
    if |s| > 0 && s[0] <= ' ' then TrimStart(s[1..]) else s
  }

  /** String.trim: strips every leading and trailing character up to ' '. */
  function Trim(s: string): (r: string)
    ensures |r| <= |s|
    ensures r == [] || (r[0] > ' ' && r[|r| - 1] > ' ')
    ensures |s| >= 1 && s[0] > ' ' && s[|s| - 1] > ' ' ==> r == s
  {
    TrimStart(TrimEnd(s))
  }

  predicate SpaceFree(ts: seq<string>)
  {
    forall k | 0 <= k < |ts| :: ' ' !in ts[k]
  }

  predicate NonEmptyTokens(ts: seq<string>)
  {
    forall k | 0 <= k < |ts| :: |ts[k]| >= 1
  }

  lemma {:induction false} JoinEnds(ts: seq<string>)
    requires |ts| >= 1 && NonEmptyTokens(ts)
    ensures |Join(ts)| >= 1
    ensures Join(ts)[0] == ts[0][0]
    ensures Join(ts)[|Join(ts)| - 1] == ts[|ts| - 1][|ts[|ts| - 1]| - 1]
  {
    if |ts| > 1 {
      JoinEnds(ts[..|ts| - 1]);
    }
  }

  /** Splitting a space-joined list of non-empty, space-free tokens gives the list back. */
  lemma {:induction false} SplitJoin(ts: seq<string>)
    requires |ts| >= 1 && SpaceFree(ts) && NonEmptyTokens(ts)
    ensures Split(Join(ts)) == ts
  {
    PiecesJoin(ts);
    if |ts| > 1 {
      var s := Join(ts);
      assert s[|Join(ts[..|ts| - 1])|] == ' ';
    }
  }

  lemma {:induction false} PiecesJoin(ts: seq<string>)
    requires |ts| >= 1 && SpaceFree(ts)
    ensures Pieces(Join(ts)) == ts
  {
    if |ts| > 1 {
      var init, last := ts[..|ts| - 1], ts[|ts| - 1];
      var s := Join(ts);
      var p := |Join(init)|;
      assert s == Join(init) + " " + last;
      assert s[p] == ' ';
      var i := LastSpace(s);
      assert s[..i] == Join(init);
      assert s[i + 1..] == last;
      PiecesJoin(init);
    }
  }

  /** trim undoes the single space the board renderer leaves after its last token. */
  lemma TrimJoinSpace(ts: seq<string>)
    requires |ts| >= 1 && NonEmptyTokens(ts)
    requires ts[0][0] > ' ' && ts[|ts| - 1][|ts[|ts| - 1]| - 1] > ' '
    ensures Trim(Join(ts) + " ") == Join(ts)
  {
    var s := Join(ts);
    JoinEnds(ts);
    assert (s + " ")[..|s|] == s;
    assert TrimEnd(s + " ") == TrimEnd(s) == s;
    assert TrimStart(s) == s;
  }
}
