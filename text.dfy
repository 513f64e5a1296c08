/** Text helpers the script uses through Python's `str` methods and through
    pandas' numeric coercion: whitespace, `strip`, `split`, ordering of
    strings, and the decimal integers of the `count` columns. */
module Text {
  import opened Results

  /** Python's `str.isspace` over the ASCII and Latin-1 range: the ASCII
      whitespace and separator controls, U+0085 (next line) and U+00A0
      (no-break space); these are the characters `strip()` and `split()`
      treat as separators. */
  predicate IsSpace(c: char) {
    c == ' ' || c == '\t' || c == '\n' || c == '\r' || c == '\U{0B}' || c == '\U{0C}'
    || ('\U{1C}' <= c <= '\U{1F}') || c == '\U{85}' || c == '\U{A0}'
  }

  predicate AllSpace(s: string) {
    forall i :: 0 <= i < |s| ==> IsSpace(s[i])
  }

  predicate NoSpace(s: string) {
    forall i :: 0 <= i < |s| ==> !IsSpace(s[i])
  }

  // ---------------------------------------------------------------------
  // str.strip()

  function StripStart(s: string): string {
    if s != [] && IsSpace(s[0]) then StripStart(s[1..]) else s
  }

  function StripEnd(s: string): string {
    if s != [] && IsSpace(s[|s| - 1]) then StripEnd(s[..|s| - 1]) else s
  }

  /** `s.strip()`: `s` without its leading and trailing whitespace. */
  function Strip(s: string): string {
    StripEnd(StripStart(s))
  }

  /** `StripStart` drops the leading blanks, up to the first non-blank. */
  lemma {:induction false} StripStartCut(s: string) returns (k: nat)
    ensures k <= |s| && StripStart(s) == s[k..] && AllSpace(s[..k])
    ensures k == |s| || !IsSpace(s[k])
    decreases |s|
  {
    if s != [] && IsSpace(s[0]) {
      var k' := StripStartCut(s[1..]);
      k := k' + 1;
      assert s[1..][k'..] == s[k..];
      forall i | 0 <= i < k ensures IsSpace(s[..k][i]) {
        if i > 0 { assert s[..k][i] == s[1..][..k'][i - 1]; }
      }
    } else {
      k := 0;
    }
  }

  /** `StripEnd` drops the trailing blanks, back to the last non-blank. */
  lemma {:induction false} StripEndCut(s: string) returns (k: nat)
    ensures k <= |s| && StripEnd(s) == s[..k] && AllSpace(s[k..])
    ensures k == 0 || !IsSpace(s[k - 1])
    decreases |s|
  {
    if s != [] && IsSpace(s[|s| - 1]) {
      var p := s[..|s| - 1];
      k := StripEndCut(p);
      assert p[..k] == s[..k];
      forall i | 0 <= i < |s| - k ensures IsSpace(s[k..][i]) {
        if i < |s| - 1 - k { assert s[k..][i] == p[k..][i]; }
      }
    } else {
      k := |s|;
      assert s[..k] == s;
    }
  }

  /** What `strip` leaves is a piece of `s` whose removed margins are blank and
      whose own ends are not. */
  lemma StripIsTrimmedInfix(s: string)
    ensures var r := Strip(s);
      (exists i, j :: 0 <= i <= j <= |s| && r == s[i..j] && AllSpace(s[..i]) && AllSpace(s[j..]))
      && (r == [] || (!IsSpace(r[0]) && !IsSpace(r[|r| - 1])))
  {
    var i, j := StripMargins(s);
    assert 0 <= i <= j <= |s| && Strip(s) == s[i..j] && AllSpace(s[..i]) && AllSpace(s[j..]);
  }

  lemma StripMargins(s: string) returns (i: nat, j: nat)
    ensures i <= j <= |s| && Strip(s) == s[i..j] && AllSpace(s[..i]) && AllSpace(s[j..])
    ensures i == j || (!IsSpace(s[i]) && !IsSpace(s[j - 1]))
  {
    i := StripStartCut(s);
    var t := s[i..];
    var k := StripEndCut(t);
    j := i + k;
    assert t[..k] == s[i..j];
    assert t[k..] == s[j..];
    if k > 0 {
      assert s[j - 1] == t[k - 1] && s[i] == t[0];
    }
  }

  /** Stripping twice changes nothing more. */
  lemma StripIdempotent(s: string)
    ensures Strip(Strip(s)) == Strip(s)
  {
    var i, j := StripMargins(s);
    var r := Strip(s);
    if r != [] {
      assert r[0] == s[i] && r[|r| - 1] == s[j - 1];
    }
    assert StripStart(r) == r;
    assert StripEnd(r) == r;
  }

  /** A text that neither starts nor ends with whitespace strips to itself. */
  lemma StripIdentity(s: string)
    requires s == [] || (!IsSpace(s[0]) && !IsSpace(s[|s| - 1]))
    ensures Strip(s) == s
  {
    assert StripStart(s) == s;
  }

  // ---------------------------------------------------------------------
  // str.split()

  /** The leading run of non-blank characters of `s`. */
  function TakeWord(s: string): (w: string)
    ensures |w| <= |s| && w == s[..|w|] && NoSpace(w)
    ensures |w| == |s| || IsSpace(s[|w|])
  {
    if s == [] || IsSpace(s[0]) then [] else [s[0]] + TakeWord(s[1..])
  }

  /** `s.split()` with no separator: the maximal runs of non-blank characters,
      left to right. */
  function Words(s: string): (ws: seq<string>)
    decreases |s|
  {
    if s == [] then []
    else if IsSpace(s[0]) then Words(s[1..])
    else
      var w := TakeWord(s);
      [w] + Words(s[|w|..])
  }

  /** Every word is a non-empty run without whitespace. */
  lemma {:induction false} WordsAreWords(s: string)
    ensures forall k :: 0 <= k < |Words(s)| ==> Words(s)[k] != [] && NoSpace(Words(s)[k])
    decreases |s|
  {
    if s == [] {
    } else if IsSpace(s[0]) {
      WordsAreWords(s[1..]);
    } else {
      var w := TakeWord(s);
      WordsAreWords(s[|w|..]);
    }
  }

  /** `split()` finds no word exactly when the text is blank. */
  lemma {:induction false} NoWordsIffBlank(s: string)
    ensures Words(s) == [] <==> AllSpace(s)
    decreases |s|
  {
    if s == [] {
    } else if IsSpace(s[0]) {
      NoWordsIffBlank(s[1..]);
      assert s == [s[0]] + s[1..];
      assert AllSpace(s[1..]) ==> AllSpace(s) by {
        if AllSpace(s[1..]) {
          forall i | 0 <= i < |s| ensures IsSpace(s[i]) {
            if i > 0 { assert s[i] == s[1..][i - 1]; }
          }
        }
      }
    } else {
      assert !IsSpace(s[0]);
    }
  }

  /** `w` occurs in `s` at `i`, followed only by blanks and preceded by the
      start of `s` or by a blank. */
  predicate LastWordAt(s: string, w: string, i: nat) {
    i + |w| <= |s| && s[i..i + |w|] == w && AllSpace(s[i + |w|..]) && (i == 0 || IsSpace(s[i - 1]))
  }

  /** The last word of `s` sits at the end of `s` once trailing blanks are
      dropped, and starts at the beginning of `s` or right after a blank. */
  lemma {:induction false} LastWordPlacement(s: string) returns (at: nat)
    requires Words(s) != []
    ensures LastWordAt(s, Words(s)[|Words(s)| - 1], at)
    decreases |s|, 1
  {
    if IsSpace(s[0]) {
      at := LastWordAfterBlank(s);
    } else if Words(s[|TakeWord(s)|..]) == [] {
      OnlyWord(s);
      at := 0;
    } else {
      at := LastWordAfterFirst(s);
    }
  }

  lemma {:induction false} LastWordAfterBlank(s: string) returns (at: nat)
    requires Words(s) != [] && IsSpace(s[0])
    ensures LastWordAt(s, Words(s)[|Words(s)| - 1], at)
    decreases |s|, 0
  {
    assert Words(s) == Words(s[1..]);
    var i := LastWordPlacement(s[1..]);
    ShiftLastWord(s, Words(s)[|Words(s)| - 1], i, 1);
    at := i + 1;
  }

  lemma {:induction false} LastWordAfterFirst(s: string) returns (at: nat)
    requires s != [] && !IsSpace(s[0]) && Words(s[|TakeWord(s)|..]) != []
    ensures LastWordAt(s, Words(s)[|Words(s)| - 1], at)
    decreases |s|, 0
  {
    var v := TakeWord(s);
    var rest := s[|v|..];
    var w := Words(rest)[|Words(rest)| - 1];
    assert Words(s) == [v] + Words(rest);
    var i := LastWordPlacement(rest);
    assert i > 0 by {
      // rest starts with a blank, so it cannot start with w
      WordsAreWords(rest);
      NotAtStart(rest, w);
    }
    ShiftLastWord(s, w, i, |v|);
    at := i + |v|;
  }

  /** A word cannot sit at the start of a text that starts with a blank. */
  lemma NotAtStart(s: string, w: string)
    requires s != [] && IsSpace(s[0]) && w != [] && NoSpace(w)
    ensures !LastWordAt(s, w, 0)
  {
    if |w| <= |s| {
      assert s[0..|w|][0] == s[0];
    }
  }

  /** A text that starts with its only word has that word at position 0. */
  lemma OnlyWord(s: string)
    requires s != [] && !IsSpace(s[0]) && Words(s[|TakeWord(s)|..]) == []
    ensures Words(s) == [TakeWord(s)] && LastWordAt(s, TakeWord(s), 0)
  {
    var v := TakeWord(s);
    assert Words(s) == [v] + Words(s[|v|..]);
    NoWordsIffBlank(s[|v|..]);
    assert s[0..|v|] == v;
  }

  lemma ShiftLastWord(s: string, w: string, i: nat, d: nat)
    requires d <= |s| && LastWordAt(s[d..], w, i) && (i == 0 ==> d == 0 || IsSpace(s[d - 1]))
    ensures LastWordAt(s, w, i + d)
  {
    var r := s[d..];
    assert s[i + d..i + d + |w|] == r[i..i + |w|];
    assert s[i + d + |w|..] == r[i + |w|..];
    if i > 0 { assert s[i + d - 1] == r[i - 1]; }
  }

  // ---------------------------------------------------------------------
  // Ordering of strings (Python compares `str` by code point, left to right)

  predicate Less(a: string, b: string) {
    if a == [] then b != []
    else if b == [] then false
    else a[0] < b[0] || (a[0] == b[0] && Less(a[1..], b[1..]))
  }

  lemma {:induction false} LessIrreflexive(a: string)
    ensures !Less(a, a)
  {
    if a != [] { LessIrreflexive(a[1..]); }
  }

  lemma {:induction false} LessTransitive(a: string, b: string, c: string)
    requires Less(a, b) && Less(b, c)
    ensures Less(a, c)
  {
    if a != [] && b != [] && c != [] && a[0] == b[0] && b[0] == c[0] {
      LessTransitive(a[1..], b[1..], c[1..]);
    }
  }

  lemma {:induction false} LessTotal(a: string, b: string)
    ensures a == b || Less(a, b) || Less(b, a)
  {
    if a != [] && b != [] && a[0] == b[0] {
      LessTotal(a[1..], b[1..]);
      if a[1..] == b[1..] {
        assert a == [a[0]] + a[1..] && b == [b[0]] + b[1..];
      }
    }
  }

  // ---------------------------------------------------------------------
  // Decimal integers

  predicate IsDigit(c: char) { '0' <= c <= '9' }

  function DigitValue(c: char): (d: nat)
    requires IsDigit(c)
    ensures d < 10
  {
    (c as int) - ('0' as int)
  }

  function DigitChar(d: nat): (c: char)
    requires d < 10
    ensures IsDigit(c) && DigitValue(c) == d
  {
    ('0' as int + d) as char
  }

  /** The value of a non-empty run of decimal digits. */
  function DigitsValue(s: string): nat
    requires forall i :: 0 <= i < |s| ==> IsDigit(s[i])
  {
    if s == [] then 0 else DigitsValue(s[..|s| - 1]) * 10 + DigitValue(s[|s| - 1])
  }

  function NatToDigits(n: nat): (s: string)
    ensures s != [] && forall i :: 0 <= i < |s| ==> IsDigit(s[i])
    decreases n
  {
    if n < 10 then [DigitChar(n)] else NatToDigits(n / 10) + [DigitChar(n % 10)]
  }

  /** How an integer is written in the data files: an optional `-` and decimal digits. */
  function IntToText(n: int): string {
    if n < 0 then "-" + NatToDigits(-n) else NatToDigits(n)
  }

  /** The decimal text of an integer is a digit or `-` followed by digits, and
      it ends in a digit. */
  lemma IntToTextShape(n: int)
    ensures var t := IntToText(n);
      && t != [] && IsDigit(t[|t| - 1]) && (IsDigit(t[0]) || t[0] == '-')
      && forall i :: 1 <= i < |t| ==> IsDigit(t[i])
  {
    if n < 0 {
      var d := NatToDigits(-n);
      assert IntToText(n) == "-" + d;
      assert forall i :: 1 <= i < |"-" + d| ==> ("-" + d)[i] == d[i - 1];
    }
  }

  /** The integer a text spells, when it is an optional sign followed by one or
      more decimal digits; nothing otherwise. */
  function ParseInt(s: string): (r: Option<int>)
  {
    if s == [] then None
    else if s[0] == '-' || s[0] == '+' then
      var body := s[1..];
      if body != [] && forall i :: 0 <= i < |body| ==> IsDigit(body[i]) then
        var v: int := DigitsValue(body);
        Some(if s[0] == '-' then -v else v)
      else None
    else if forall i :: 0 <= i < |s| ==> IsDigit(s[i]) then Some(DigitsValue(s))
    else None
  }

  lemma {:induction false} DigitsRoundTrip(n: nat)
    ensures DigitsValue(NatToDigits(n)) == n
    decreases n
  {
    if n >= 10 {
      DigitsRoundTrip(n / 10);
      var s := NatToDigits(n);
      assert s[..|s| - 1] == NatToDigits(n / 10);
    }
  }

  /** Reading back what `IntToText` writes gives the same integer. */
  lemma ParseRendered(n: int)
    ensures ParseInt(IntToText(n)) == Some(n)
  {
    var m: nat := if n < 0 then -n else n;
    var d := NatToDigits(m);
    DigitsRoundTrip(m);
    if n < 0 {
      var s := "-" + d;
      assert IntToText(n) == s;
      assert s[0] == '-' && s[1..] == d;
    } else {
      assert IntToText(n) == d;
      assert IsDigit(d[0]);
    }
  }

  /** A text with a character that is neither a digit nor a leading sign is no integer. */
  lemma ParseRejectsNonDigit(s: string, k: nat)
    requires k < |s| && !IsDigit(s[k]) && !(k == 0 && (s[k] == '-' || s[k] == '+'))
    ensures ParseInt(s) == None
  {
    if s[0] == '-' || s[0] == '+' {
      assert s[1..][k - 1] == s[k];
    }
  }
}
