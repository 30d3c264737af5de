/** What the program's streams do with characters: decimal integers written by
    `<<` and read back by `>>`, and white-space separated words read by `>>`
    into a std::string. */
module Text {

  datatype Option<T> = None | Some(value: T)

  /** The white-space class of the C locale: ' ', '\t', '\n', '\v', '\f', '\r'. */
  predicate IsSpace(ch: char) {
    ch == ' ' || '\t' <= ch <= '\r'
  }

  predicate IsDigit(ch: char) {
    '0' <= ch <= '9'
  }

  predicate AllDigits(s: string) {
    forall k :: 0 <= k < |s| ==> IsDigit(s[k])
  }

  /** A non-empty string without white space: one token of a stream. */
  predicate IsWord(s: string) {
    |s| > 0 && forall k :: 0 <= k < |s| ==> !IsSpace(s[k])
  }

  function DigitChar(d: nat): (ch: char)
    requires d < 10
    ensures IsDigit(ch)
  {
    ('0' as int + d) as char
  }

  function DigitValue(ch: char): (d: nat)
    requires IsDigit(ch)
    ensures d < 10
  {
    ch as int - '0' as int
  }

  /** The decimal digits of n without leading zeros. */
  function NatToString(n: nat): (s: string)
    ensures |s| > 0
    decreases n
  {
    if n < 10 then [DigitChar(n)] else NatToString(n / 10) + [DigitChar(n % 10)]
  }

  lemma {:induction false} NatToStringDigits(n: nat)
    ensures AllDigits(NatToString(n))
    decreases n
  {
    if n >= 10 {
      NatToStringDigits(n / 10);
    }
  }

  /** What `stream << i` writes for a (signed) integer. */
  function IntToString(i: int): (s: string)
    ensures |s| > 0
  {
    if i < 0 then "-" + NatToString(-i) else NatToString(i)
  }

  /** `<<` writes one word that starts with a digit or a minus sign. */
  lemma IntToStringIsWord(i: int)
    ensures IsWord(IntToString(i))
    ensures IsDigit(IntToString(i)[0]) || IntToString(i)[0] == '-'
  {
    var n := if i < 0 then -i else i;
    NatToStringDigits(n);
  }

  /** The value of a run of decimal digits, most significant first. */
  function DigitsValue(s: string): nat
    requires AllDigits(s)
    decreases |s|
  {
    if |s| == 0 then 0 else DigitsValue(s[..|s| - 1]) * 10 + DigitValue(s[|s| - 1])
  }

  lemma {:induction false} NatToStringValue(n: nat)
    ensures AllDigits(NatToString(n)) && DigitsValue(NatToString(n)) == n
    decreases n
  {
    NatToStringDigits(n);
    var s := NatToString(n);
    if n < 10 {
      assert s[..0] == [];
    } else {
      NatToStringValue(n / 10);
      assert s[..|s| - 1] == NatToString(n / 10);
      assert DigitValue(DigitChar(n % 10)) == n % 10;
    }
  }

  /** Length of the leading run of digits. */
  function DigitRun(s: string): (k: nat)
    ensures k <= |s|
    ensures AllDigits(s[..k])
    ensures k < |s| ==> !IsDigit(s[k])
    decreases |s|
  {
    if |s| > 0 && IsDigit(s[0]) then
      var k := 1 + DigitRun(s[1..]);
      assert s[..k] == [s[0]] + s[1..][..k - 1];
      k
    else 0
  }

  lemma {:induction false} DigitRunOf(ds: string, rest: string)
    requires AllDigits(ds)
    requires rest == [] || !IsDigit(rest[0])
    ensures DigitRun(ds + rest) == |ds|
    decreases |ds|
  {
    if |ds| > 0 {
      assert (ds + rest)[1..] == ds[1..] + rest;
      DigitRunOf(ds[1..], rest);
    }
  }

  /** The input after the leading white space. */
  function SkipSpace(s: string): (t: string)
    ensures |t| <= |s| && t == s[|s| - |t|..]
    ensures t == [] || !IsSpace(t[0])
    decreases |s|
  {
    if |s| > 0 && IsSpace(s[0]) then SkipSpace(s[1..]) else s
  }

  /** `stream >> n` for an int: skip white space, an optional sign, then at
      least one digit; the rest of the input stays unread. None when there is
      no digit, as on the end of the line. */
  function ReadInt(s: string): (r: Option<(int, string)>)
    ensures r.Some? ==> |r.value.1| < |s|
  {
    ReadSignedDigits(SkipSpace(s))
  }

  /** The sign and digits of `>>`, once the white space is skipped. */
  function ReadSignedDigits(t: string): (r: Option<(int, string)>)
    ensures r.Some? ==> |r.value.1| < |t|
  {
    if |t| > 0 && (t[0] == '-' || t[0] == '+') then
      match ReadDigits(t[1..])
      case None => None
      case Some((v, rest)) => Some((if t[0] == '-' then -(v as int) else v as int, rest))
    else
      match ReadDigits(t)
      case None => None
      case Some((v, rest)) => Some((v as int, rest))
  }

  /** At least one digit, and the input after them. */
  function ReadDigits(u: string): (r: Option<(nat, string)>)
    ensures r.Some? ==> |r.value.1| < |u|
  {
    var k := DigitRun(u);
    if k == 0 then None else Some((DigitsValue(u[..k]), u[k..]))
  }

  lemma ReadIntSkipsSpace(s: string)
    ensures ReadInt(" " + s) == ReadInt(s)
  {
    assert (" " + s)[1..] == s;
    assert SkipSpace(" " + s) == SkipSpace(s);
  }

  lemma ReadDigitsOf(ds: string, rest: string)
    requires |ds| > 0 && AllDigits(ds)
    requires rest == [] || !IsDigit(rest[0])
    ensures ReadDigits(ds + rest) == Some((DigitsValue(ds), rest))
  {
    DigitRunOf(ds, rest);
    assert (ds + rest)[..|ds|] == ds;
    assert (ds + rest)[|ds|..] == rest;
  }

  lemma SkipNothing(s: string)
    requires |s| > 0 && !IsSpace(s[0])
    ensures ReadInt(s) == ReadSignedDigits(s)
  {
  }

  lemma ReadNegativeOf(n: nat, rest: string)
    requires n > 0
    requires rest == [] || !IsDigit(rest[0])
    ensures ReadSignedDigits("-" + NatToString(n) + rest) == Some((-(n as int), rest))
  {
    var ds := NatToString(n);
    NatToStringDigits(n);
    var s := "-" + ds + rest;
    assert s[1..] == ds + rest;
    ReadDigitsOf(ds, rest);
    NatToStringValue(n);
  }

  lemma ReadNonNegativeOf(n: nat, rest: string)
    requires rest == [] || !IsDigit(rest[0])
    ensures ReadSignedDigits(NatToString(n) + rest) == Some((n, rest))
  {
    var ds := NatToString(n);
    NatToStringDigits(n);
    assert (ds + rest)[0] == ds[0];
    ReadDigitsOf(ds, rest);
    NatToStringValue(n);
  }

  /** What `<<` writes, `>>` reads back, up to the next non-digit. */
  lemma ReadIntOf(i: int, rest: string)
    requires rest == [] || !IsDigit(rest[0])
    ensures ReadInt(IntToString(i) + rest) == Some((i, rest))
  {
    IntToStringIsWord(i);
    if i < 0 {
      var s := "-" + NatToString(-i) + rest;
      assert IntToString(i) + rest == s;
      assert ReadInt(s) == ReadSignedDigits(s) by {
        SkipNothing(s);
      }
      ReadNegativeOf(-i, rest);
    } else {
      var s := NatToString(i) + rest;
      assert IntToString(i) + rest == s;
      assert ReadInt(s) == ReadSignedDigits(s) by {
        assert s[0] == NatToString(i)[0];
        SkipNothing(s);
      }
      ReadNonNegativeOf(i, rest);
    }
  }

  /** Length of the leading run of non-space characters. */
  function WordLength(s: string): (k: nat)
    ensures k <= |s|
    ensures |s| > 0 && !IsSpace(s[0]) ==> k > 0
    decreases |s|
  {
    if |s| > 0 && !IsSpace(s[0]) then 1 + WordLength(s[1..]) else 0
  }

  lemma {:induction false} WordLengthOf(w: string, rest: string)
    requires forall k :: 0 <= k < |w| ==> !IsSpace(w[k])
    requires rest == [] || IsSpace(rest[0])
    ensures WordLength(w + rest) == |w|
    decreases |w|
  {
    if |w| > 0 {
      assert (w + rest)[1..] == w[1..] + rest;
      WordLengthOf(w[1..], rest);
    }
  }

  /** The successive `stream >> s` reads of a std::string from the line. */
  function Tokens(s: string): seq<string>
    decreases |s|
  {
    if |s| == 0 then []
    else if IsSpace(s[0]) then Tokens(s[1..])
    else
      var k := WordLength(s);
      [s[..k]] + Tokens(s[k..])
  }

  lemma {:induction false} WordLengthIsWord(s: string)
    requires |s| > 0 && !IsSpace(s[0])
    ensures IsWord(s[..WordLength(s)])
    decreases |s|
  {
    var k := WordLength(s);
    if |s| > 1 && !IsSpace(s[1]) {
      WordLengthIsWord(s[1..]);
      assert s[..k] == [s[0]] + s[1..][..k - 1];
    } else {
      assert k == 1;
    }
  }

  /** Every token read is a word. */
  lemma {:induction false} TokensAreWords(s: string)
    ensures forall k :: 0 <= k < |Tokens(s)| ==> IsWord(Tokens(s)[k])
    decreases |s|
  {
    if |s| > 0 {
      if IsSpace(s[0]) {
        TokensAreWords(s[1..]);
      } else {
        var k := WordLength(s);
        WordLengthIsWord(s);
        TokensAreWords(s[k..]);
      }
    }
  }

  lemma TokensOfWord(w: string, rest: string)
    requires IsWord(w)
    requires rest == [] || IsSpace(rest[0])
    ensures Tokens(w + rest) == [w] + Tokens(rest)
  {
    WordLengthOf(w, rest);
    assert (w + rest)[..|w|] == w;
    assert (w + rest)[|w|..] == rest;
  }

  /** A word followed by a space and more text reads as that word first. */
  lemma TokensOfWordThenSpace(w: string, rest: string)
    requires IsWord(w)
    ensures Tokens(w + " " + rest) == [w] + Tokens(rest)
  {
    assert w + " " + rest == w + (" " + rest);
    TokensOfWord(w, " " + rest);
    assert (" " + rest)[1..] == rest;
  }

  lemma TokensOfTwoWords(a: string, b: string)
    requires IsWord(a) && IsWord(b)
    ensures Tokens(a + " " + b) == [a, b]
  {
    TokensOfWordThenSpace(a, b);
    TokensOfWord(b, []);
    assert b + [] == b;
  }
}
