/** The text helpers the parsers lean on: `trim`, `split_whitespace`, `split`, `split_once`,
    `contains`, ASCII case folding and integer parsing. */
module Text {
  import opened Prelude
  import opened Errors
  import opened Scan

  // ---------------------------------------------------------------- whitespace

  /** Rust's `char::is_whitespace`: the Unicode property White_Space. */
  predicate IsWhitespace(c: char) {
    var n := c as int;
    || 9 <= n <= 13 || n == 0x20 || n == 0x85 || n == 0xA0 || n == 0x1680
    || 0x2000 <= n <= 0x200A || n == 0x2028 || n == 0x2029 || n == 0x202F || n == 0x205F || n == 0x3000
  }

  /** The whole property, code point by code point. */
  lemma WhitespaceTable(c: char)
    ensures IsWhitespace(c) <==> c as int in {
      0x09, 0x0A, 0x0B, 0x0C, 0x0D, 0x20, 0x85, 0xA0, 0x1680, 0x2000, 0x2001, 0x2002, 0x2003, 0x2004, 0x2005,
      0x2006, 0x2007, 0x2008, 0x2009, 0x200A, 0x2028, 0x2029, 0x202F, 0x205F, 0x3000}
  {
  }

  predicate AllWhitespace(s: string) {
    forall c :: c in s ==> IsWhitespace(c)
  }

  predicate NoWhitespace(s: string) {
    forall c :: c in s ==> !IsWhitespace(c)
  }

  function TrimStart(s: string): (r: string)
    ensures |r| <= |s|
    ensures r != "" ==> !IsWhitespace(r[0])
  {
    if s != "" && IsWhitespace(s[0]) then TrimStart(s[1..]) else s
  }

  function TrimEnd(s: string): (r: string)
    ensures |r| <= |s|
    ensures r <= s
    ensures r != "" ==> !IsWhitespace(r[|r| - 1])
  {
    if s != "" && IsWhitespace(s[|s| - 1]) then TrimEnd(s[..|s| - 1]) else s
  }

  function Trim(s: string): (r: string)
    ensures Trimmed(r)
  {
    TrimEnd(TrimStart(s))
  }

  predicate Trimmed(s: string) {
    s != "" ==> !IsWhitespace(s[0]) && !IsWhitespace(s[|s| - 1])
  }

  /** A text with blanks around it. */
  datatype Padded = Padded(before: string, core: string, after: string) {
    function Text(): string {
      before + core + after
    }

    predicate Ok() {
      AllWhitespace(before) && AllWhitespace(after) && Trimmed(core)
    }
  }

  lemma {:induction false} TrimStartPadded(pad: string, s: string)
    requires AllWhitespace(pad)
    ensures TrimStart(pad + s) == TrimStart(s)
  {
    if pad == "" {
      assert pad + s == s;
    } else {
      assert pad[0] in pad;
      assert (pad + s)[1..] == pad[1..] + s;
      TrimStartPadded(pad[1..], s);
    }
  }

  lemma {:induction false} TrimEndPadded(s: string, pad: string)
    requires AllWhitespace(pad)
    ensures TrimEnd(s + pad) == TrimEnd(s)
  {
    if pad == "" {
      assert s + pad == s;
    } else {
      assert pad[|pad| - 1] in pad;
      assert (s + pad)[..|s + pad| - 1] == s + pad[..|pad| - 1];
      TrimEndPadded(s, pad[..|pad| - 1]);
    }
  }

  /** Blanks around a value never reach the caller. */
  lemma TrimPadded(before: string, value: string, after: string)
    requires AllWhitespace(before) && AllWhitespace(after) && Trimmed(value)
    ensures Trim(before + value + after) == value
  {
    if value == "" {
      assert before + value + after == before + after + "";
      TrimStartPadded(before + after, "");
    } else {
      assert before + value + after == before + (value + after);
      TrimStartPadded(before, value + after);
      TrimEndPadded(value, after);
    }
  }

  lemma {:induction false} TrimStartSplits(s: string) returns (before: string)
    ensures AllWhitespace(before) && s == before + TrimStart(s)
  {
    before := "";
    if s != "" && IsWhitespace(s[0]) {
      var rest := TrimStartSplits(s[1..]);
      before := [s[0]] + rest;
    }
  }

  lemma {:induction false} TrimEndSplits(s: string) returns (after: string)
    ensures AllWhitespace(after) && s == TrimEnd(s) + after
  {
    after := "";
    if s != "" && IsWhitespace(s[|s| - 1]) {
      var rest := TrimEndSplits(s[..|s| - 1]);
      after := rest + [s[|s| - 1]];
    }
  }

  /** Trimming removes blanks at both ends and nothing else. */
  lemma TrimSplits(s: string) returns (before: string, after: string)
    ensures AllWhitespace(before) && AllWhitespace(after) && s == before + Trim(s) + after
  {
    before := TrimStartSplits(s);
    after := TrimEndSplits(TrimStart(s));
  }

  /** `split_whitespace().nth(1)`. */
  function SecondWord(s: string): (r: Option<string>)
    ensures r.Some? ==> r.value != "" && NoWhitespace(r.value)
  {
    var rest := TrimStart(DropWord(TrimStart(s)));
    if rest == "" then None else Some(FirstWord(rest))
  }

  function FirstWord(s: string): (r: string)
    ensures r <= s && NoWhitespace(r)
    ensures s != "" && !IsWhitespace(s[0]) ==> r != ""
  {
    if s == "" || IsWhitespace(s[0]) then "" else [s[0]] + FirstWord(s[1..])
  }

  function DropWord(s: string): (r: string)
    ensures |r| <= |s|
  {
    if s == "" || IsWhitespace(s[0]) then s else DropWord(s[1..])
  }

  lemma {:induction false} WordThenBlank(word: string, rest: string)
    requires NoWhitespace(word)
    requires rest != "" ==> IsWhitespace(rest[0])
    ensures FirstWord(word + rest) == word && DropWord(word + rest) == rest
  {
    if word == "" {
      assert word + rest == rest;
    } else {
      assert word[0] in word;
      assert (word + rest)[1..] == word[1..] + rest;
      WordThenBlank(word[1..], rest);
    }
  }

  // ---------------------------------------------------------------- splitting

  predicate SingleLine(s: string) {
    FindPair(s, '\r', '\n', 0).None?
  }

  /** `split("\r\n")`: never empty. */
  function SplitLines(t: string): (lines: seq<string>)
    ensures |lines| >= 1
    decreases |t|
  {
    match FindPair(t, '\r', '\n', 0)
    case None => [t]
    case Some(p) => [t[..p]] + SplitLines(t[p + 2..])
  }

  function JoinLines(lines: seq<string>): string
    requires |lines| >= 1
  {
    if |lines| == 1 then lines[0] else lines[0] + CRLF_TEXT + JoinLines(lines[1..])
  }

  lemma {:induction false} SplitJoin(lines: seq<string>)
    requires |lines| >= 1
    requires forall line :: line in lines ==> SingleLine(line)
    ensures SplitLines(JoinLines(lines)) == lines
  {
    assert SingleLine(lines[0]);
    if |lines| > 1 {
      var rest := JoinLines(lines[1..]);
      var t := JoinLines(lines);
      FindPairAfter(t, 0, lines[0], '\r', '\n');
      assert t[..|lines[0]|] == lines[0] && t[|lines[0]| + 2..] == rest;
      SplitJoin(lines[1..]);
    }
  }

  /** The lines are the one way to cut the text into single lines. */
  lemma {:induction false} SplitExactly(t: string, lines: seq<string>)
    ensures SplitLines(t) == lines
      <==> |lines| >= 1 && JoinLines(lines) == t && forall line :: line in lines ==> SingleLine(line)
  {
    if |lines| >= 1 && JoinLines(lines) == t && forall line :: line in lines ==> SingleLine(line) {
      SplitJoin(lines);
    }
    JoinSplit(t);
  }

  lemma {:induction false} JoinSplit(t: string)
    ensures JoinLines(SplitLines(t)) == t
    ensures forall line :: line in SplitLines(t) ==> SingleLine(line)
    decreases |t|
  {
    match FindPair(t, '\r', '\n', 0)
    case None =>
    case Some(p) =>
      JoinSplit(t[p + 2..]);
      FrontIsSingle(t, p);
      assert SplitLines(t)[1..] == SplitLines(t[p + 2..]);
      assert t == t[..p] + CRLF_TEXT + t[p + 2..];
  }

  lemma FrontIsSingle(t: string, p: nat)
    requires FindPair(t, '\r', '\n', 0) == Some(p)
    ensures SingleLine(t[..p])
  {
    FindPairExactly(t, '\r', '\n', 0, Some(p));
    forall k | 0 <= k
      ensures !PairAt(t[..p], '\r', '\n', k)
    {
      assert k < p ==> !PairAt(t, '\r', '\n', k);
    }
    FindPairExactly(t[..p], '\r', '\n', 0, None);
  }

  /** `split_once(c)`. */
  function SplitOnce(s: string, c: char): (r: Option<(string, string)>)
    ensures r.Some? ==> s == r.value.0 + [c] + r.value.1 && c !in r.value.0
    ensures r.None? <==> c !in s
  {
    match IndexOf(s, c, 0)
    case None => assert s[0..] == s; None
    case Some(p) => assert s[0..p] == s[..p]; Some((s[..p], s[p + 1..]))
  }

  lemma SplitOnceAt(left: string, c: char, right: string)
    requires c !in left
    ensures SplitOnce(left + [c] + right, c) == Some((left, right))
  {
    var s := left + [c] + right;
    assert s[|left|] == c && s[0..|left|] == left;
    assert IndexOf(s, c, 0) == Some(|left|);
    assert s[..|left|] == left && s[|left| + 1..] == right;
  }

  /** `split(c).next()`: the part before the first `c`, or all of it. */
  function Before(s: string, c: char): string {
    match SplitOnce(s, c)
    case None => s
    case Some(parts) => parts.0
  }

  predicate Contains(s: string, part: string) {
    part <= s || (s != "" && Contains(s[1..], part))
  }

  lemma {:induction false} ContainsExactly(s: string, part: string)
    ensures Contains(s, part) <==> exists k :: PartAt(s, part, k)
  {
    if part <= s {
      assert PartAt(s, part, 0);
    } else if s != "" {
      ContainsExactly(s[1..], part);
      if Contains(s[1..], part) {
        var k :| PartAt(s[1..], part, k);
        assert PartAt(s, part, k + 1);
      }
      forall k | PartAt(s, part, k)
        ensures PartAt(s[1..], part, k - 1)
      {
        assert k > 0;
      }
    }
  }

  predicate PartAt(s: string, part: string, k: int) {
    0 <= k <= |s| && part <= s[k..]
  }

  // ---------------------------------------------------------------- ASCII case

  function LowerChar(c: char): char {
    if 'A' <= c <= 'Z' then (c as int + 32) as char else c
  }

  function Lower(s: string): (r: string)
    ensures |r| == |s|
    ensures forall k :: 0 <= k < |s| ==> r[k] == LowerChar(s[k])
  {
    if s == "" then "" else [LowerChar(s[0])] + Lower(s[1..])
  }

  predicate EqIgnoreCase(s: string, t: string) {
    Lower(s) == Lower(t)
  }

  /** The same character, or the two cases of one ASCII letter. */
  predicate SameLetter(a: char, b: char) {
    || a == b
    || ('A' <= a <= 'Z' && b as int == a as int + 32)
    || ('A' <= b <= 'Z' && a as int == b as int + 32)
  }

  /** One text is the other up to the case of ASCII letters. */
  predicate CaseVariant(s: string, t: string) {
    |s| == |t| && forall k :: 0 <= k < |s| ==> SameLetter(s[k], t[k])
  }

  /** The comparison ignores the case of ASCII letters, and nothing else. */
  lemma EqIgnoreCaseExactly(s: string, t: string)
    ensures EqIgnoreCase(s, t) <==> CaseVariant(s, t)
  {
    if EqIgnoreCase(s, t) {
      forall k | 0 <= k < |s|
        ensures SameLetter(s[k], t[k])
      {
        assert Lower(s)[k] == Lower(t)[k];
      }
    }
  }

  lemma LowerOfLower(s: string)
    requires forall k :: 0 <= k < |s| ==> !('A' <= s[k] <= 'Z')
    ensures Lower(s) == s
  {
  }

  /** Searching the lower-cased text finds every case variant of a text without capitals. */
  lemma ContainsVariantExactly(s: string, part: string)
    requires forall k :: 0 <= k < |part| ==> !('A' <= part[k] <= 'Z')
    ensures Contains(Lower(s), part) <==> exists k :: VariantAt(s, part, k)
  {
    ContainsExactly(Lower(s), part);
    if k :| PartAt(Lower(s), part, k) {
      VariantAtExactly(s, part, k);
    }
    if k :| VariantAt(s, part, k) {
      VariantAtExactly(s, part, k);
    }
  }

  predicate VariantAt(s: string, part: string, k: int) {
    0 <= k && k + |part| <= |s| && CaseVariant(s[k..k + |part|], part)
  }

  lemma VariantAtExactly(s: string, part: string, k: int)
    requires forall i :: 0 <= i < |part| ==> !('A' <= part[i] <= 'Z')
    ensures VariantAt(s, part, k) <==> PartAt(Lower(s), part, k)
  {
    if 0 <= k && k + |part| <= |s| {
      var piece := s[k..k + |part|];
      LowerOfLower(part);
      EqIgnoreCaseExactly(piece, part);
      assert Lower(piece) == Lower(s)[k..k + |part|];
      assert Lower(s)[k..][..|part|] == Lower(s)[k..k + |part|];
    }
  }

  // ---------------------------------------------------------------- integers

  function DigitValue(c: char, radix: nat): (d: Option<nat>)
    ensures d.Some? ==> d.value < radix
  {
    var d :=
      if '0' <= c <= '9' then Some(c as int - '0' as int)
      else if 'a' <= c <= 'z' then Some(c as int - 'a' as int + 10)
      else if 'A' <= c <= 'Z' then Some(c as int - 'A' as int + 10)
      else None;
    if d.Some? && d.value < radix then d else None
  }

  /** Digits, as a table; hexadecimal ones in either letter case. */
  lemma DigitTable(c: char, d: nat)
    ensures DigitValue(c, 10) == Some(d) <==> d < 10 && c == "0123456789"[d]
    ensures DigitValue(c, 16) == Some(d) <==> d < 16 && (c == "0123456789abcdef"[d] || c == "0123456789ABCDEF"[d])
  {
  }

  predicate AllDigits(s: string, radix: nat) {
    forall c :: c in s ==> DigitValue(c, radix).Some?
  }

  /** The number a digit string denotes, by position. */
  function Numeral(s: string, radix: nat): nat
    requires AllDigits(s, radix)
  {
    if s == "" then 0
    else
      assert s[|s| - 1] in s;
      Numeral(s[..|s| - 1], radix) * radix + DigitValue(s[|s| - 1], radix).value
  }

  /** `from_str_radix` for an unsigned type whose largest value is `max`. */
  function ParseUint(s: string, radix: nat, max: nat): Result<nat, IntError> {
    if s == "" then Err(EmptyNumber)
    else if s == "+" || s == "-" then Err(InvalidDigit)
    else ParseDigits(Unsigned(s), 0, radix, max)
  }

  function Unsigned(s: string): string {
    if s != "" && s[0] == '+' then s[1..] else s
  }

  /** Left to right, checking the digit before the multiplication's overflow. */
  function ParseDigits(s: string, acc: nat, radix: nat, max: nat): Result<nat, IntError> {
    if s == "" then Ok(acc)
    else if DigitValue(s[0], radix).None? then Err(InvalidDigit)
    else if acc * radix > max then Err(NumberOverflow)
    else if acc * radix + DigitValue(s[0], radix).value > max then Err(NumberOverflow)
    else ParseDigits(s[1..], acc * radix + DigitValue(s[0], radix).value, radix, max)
  }

  lemma AtLeastItself(a: nat, radix: nat)
    requires radix >= 1
    ensures a * radix >= a
  {
  }

  lemma {:induction false} NumeralGrows(p: string, s: string, radix: nat)
    requires radix >= 1 && AllDigits(p + s, radix)
    ensures AllDigits(p, radix)
    ensures Numeral(p + s, radix) >= Numeral(p, radix)
  {
    assert forall c :: c in p ==> c in p + s;
    if s == "" {
      assert p + s == p;
    } else {
      var shorter := p + s[..|s| - 1];
      assert (p + s)[..|p + s| - 1] == shorter;
      assert forall c :: c in shorter ==> c in p + s;
      NumeralGrows(p, s[..|s| - 1], radix);
      AtLeastItself(Numeral(shorter, radix), radix);
    }
  }

  /** What the digit loop returns, once it has consumed `p`. */
  lemma {:induction false} ParseDigitsExactly(p: string, s: string, radix: nat, max: nat, n: nat)
    requires radix >= 1 && AllDigits(p, radix) && Numeral(p, radix) <= max
    ensures ParseDigits(s, Numeral(p, radix), radix, max) == Ok(n)
      <==> AllDigits(p + s, radix) && Numeral(p + s, radix) == n && n <= max
    decreases |s|
  {
    if s == "" {
      assert p + s == p;
    } else if DigitValue(s[0], radix).None? {
      assert s[0] in p + s;
    } else {
      var q := p + [s[0]];
      assert q[..|q| - 1] == p && q + s[1..] == p + s;
      if Numeral(q, radix) <= max {
        ParseDigitsExactly(q, s[1..], radix, max, n);
      } else if AllDigits(p + s, radix) {
        NumeralGrows(q, s[1..], radix);
      }
    }
  }

  predicate TooLarge(s: string, k: nat, radix: nat, max: nat) {
    k <= |s| && AllDigits(s[..k], radix) && Numeral(s[..k], radix) > max
  }

  /** The digit loop reports overflow exactly when digits up to some point denote too large a number,
      whatever stands behind them. */
  lemma {:induction false} ParseDigitsOverflows(s: string, from: nat, radix: nat, max: nat)
    requires radix >= 1 && from <= |s| && AllDigits(s[..from], radix) && Numeral(s[..from], radix) <= max
    ensures ParseDigits(s[from..], Numeral(s[..from], radix), radix, max) == Err(NumberOverflow)
      <==> exists k :: from <= k && TooLarge(s, k, radix, max)
    decreases |s| - from
  {
    if from < |s| {
      var next := s[..from + 1];
      assert next[..from] == s[..from] && s[from..][1..] == s[from + 1..] && next == s[..from] + [s[from]];
      if DigitValue(s[from], radix).None? {
        forall k | from < k <= |s|
          ensures !AllDigits(s[..k], radix)
        {
          assert s[..k][from] in s[..k];
        }
      } else if Numeral(next, radix) > max {
        assert TooLarge(s, from + 1, radix, max);
      } else {
        ParseDigitsOverflows(s, from + 1, radix, max);
      }
    }
  }

  /** A numeral of this value, with or without a plus sign before it. */
  ghost predicate Denotes(s: string, radix: nat, n: nat) {
    exists digits :: NumeralOf(s, digits, radix) && Numeral(digits, radix) == n
  }

  predicate NumeralOf(s: string, digits: string, radix: nat) {
    (s == digits || s == ['+'] + digits) && digits != "" && AllDigits(digits, radix)
  }

  lemma OneNumeral(s: string, digits: string, radix: nat)
    requires radix <= 36 && NumeralOf(s, digits, radix)
    ensures digits == Unsigned(s)
  {
    if s == digits {
      assert s[0] in digits;
    }
  }

  lemma UnsignedSplits(s: string)
    ensures s == Unsigned(s) || s == ['+'] + Unsigned(s)
  {
  }

  lemma DenotesExactly(s: string, radix: nat, n: nat)
    requires radix <= 36
    ensures Denotes(s, radix, n)
      <==> Unsigned(s) != "" && AllDigits(Unsigned(s), radix) && Numeral(Unsigned(s), radix) == n
  {
    UnsignedSplits(s);
    if Unsigned(s) != "" && AllDigits(Unsigned(s), radix) {
      assert NumeralOf(s, Unsigned(s), radix);
    }
    forall digits | NumeralOf(s, digits, radix)
      ensures digits == Unsigned(s)
    {
      OneNumeral(s, digits, radix);
    }
  }

  /** Parsing returns `n` exactly when the text, after one optional plus sign, is a non-empty string
      of digits that denotes `n`, and `n` fits: no wrap-around and no false overflow. */
  lemma ParseUintExactly(s: string, radix: nat, max: nat, n: nat)
    requires 1 <= radix <= 36
    ensures ParseUint(s, radix, max) == Ok(n) <==> Denotes(s, radix, n) && n <= max
  {
    DenotesExactly(s, radix, n);
    if s == "-" {
      assert s[0] in Unsigned(s);
    } else if s != "" && s != "+" {
      ParseDigitsExactly("", Unsigned(s), radix, max, n);
      assert "" + Unsigned(s) == Unsigned(s);
    }
  }

  /** The front of `s`, up to a length, is a numeral past `max`, with or without a plus sign. */
  ghost predicate Overflows(s: string, radix: nat, max: nat) {
    exists k, digits :: 0 <= k <= |s| && NumeralOf(s[..k], digits, radix) && Numeral(digits, radix) > max
  }

  lemma OverflowsExactly(s: string, radix: nat, max: nat)
    requires 1 <= radix <= 36
    ensures Overflows(s, radix, max) <==> exists k :: TooLarge(Unsigned(s), k, radix, max)
  {
    var sign := |s| - |Unsigned(s)|;
    UnsignedSplits(s);
    if k: nat :| TooLarge(Unsigned(s), k, radix, max) {
      var digits := Unsigned(s)[..k];
      assert s[..k + sign] == if sign == 0 then digits else ['+'] + digits;
      assert NumeralOf(s[..k + sign], digits, radix);
    }
    if k, digits :| 0 <= k <= |s| && NumeralOf(s[..k], digits, radix) && Numeral(digits, radix) > max {
      OneNumeral(s[..k], digits, radix);
      assert digits == Unsigned(s)[..|digits|];
      assert TooLarge(Unsigned(s), |digits|, radix, max);
    }
  }

  /** The three parse errors, exactly: nothing to read, a numeral at the front that is too large, and
      otherwise a character that is no digit. */
  lemma ParseUintErrors(s: string, radix: nat, max: nat)
    requires 1 <= radix <= 36
    ensures ParseUint(s, radix, max) == Err(EmptyNumber) <==> s == ""
    ensures ParseUint(s, radix, max) == Err(NumberOverflow) <==> Overflows(s, radix, max)
  {
    OverflowsExactly(s, radix, max);
    var digits := Unsigned(s);
    ParseNeverEmpty(digits, 0, radix, max);
    assert digits[0..] == digits && digits[..0] == "";
    ParseDigitsOverflows(digits, 0, radix, max);
    if s == "" || s == "+" {
      assert forall k :: 0 <= k <= |digits| ==> digits[..k] == "";
    }
    if s == "-" {
      assert digits[0] == '-';
      assert forall k :: 0 < k <= |digits| ==> digits[..k] == digits && digits[0] in digits;
    }
  }

  lemma {:induction false} ParseNeverEmpty(s: string, acc: nat, radix: nat, max: nat)
    ensures ParseDigits(s, acc, radix, max) != Err(EmptyNumber)
    decreases |s|
  {
    if s != "" && DigitValue(s[0], radix).Some? && acc * radix + DigitValue(s[0], radix).value <= max {
      ParseNeverEmpty(s[1..], acc * radix + DigitValue(s[0], radix).value, radix, max);
    }
  }

  function DigitChar(d: nat, upper: bool): (c: char)
    requires d < 16
    ensures DigitValue(c, 16) == Some(d)
    ensures d < 10 ==> DigitValue(c, 10) == Some(d)
    ensures !IsWhitespace(c) && c != '+' && c != ';' && c != ':' && c as int < 0x80
  {
    if d < 10 then ('0' as int + d) as char
    else if upper then ('A' as int + d - 10) as char
    else ('a' as int + d - 10) as char
  }

  /** Decimal or hexadecimal printing, in either letter case. */
  function PrintNumeral(n: nat, radix: nat, upper: bool): (s: string)
    requires radix == 10 || radix == 16
    ensures s != "" && NoWhitespace(s) && AllDigits(s, radix) && Numeral(s, radix) == n
    ensures forall c :: c in s ==> c != '+' && c != ';' && c != ':'
  {
    var last := [DigitChar(n % radix, upper)];
    if n < radix then
      assert last[..|last| - 1] == "";
      last
    else
      var front := PrintNumeral(n / radix, radix, upper);
      assert (front + last)[..|front + last| - 1] == front;
      front + last
  }

  lemma PrintSnoc(n: nat, c: char)
    requires DigitValue(c, 10).Some?
    ensures DigitChar(DigitValue(c, 10).value, false) == c
    ensures n >= 1 ==> PrintNumeral(n * 10 + DigitValue(c, 10).value, 10, false) == PrintNumeral(n, 10, false) + [c]
  {
    var d := DigitValue(c, 10).value;
    assert (n * 10 + d) / 10 == n && (n * 10 + d) % 10 == d;
  }

  lemma NumeralSnoc(front: string, c: char)
    requires AllDigits(front + [c], 10)
    ensures AllDigits(front, 10) && DigitValue(c, 10).Some?
    ensures Numeral(front + [c], 10) == Numeral(front, 10) * 10 + DigitValue(c, 10).value
  {
    assert forall x :: x in front ==> x in front + [c];
    assert c in front + [c];
    assert (front + [c])[..|front + [c]| - 1] == front;
  }

  /** Printing undoes reading for decimal numerals without leading zeros. */
  lemma {:induction false} PrintCanonical(s: string)
    requires s != "" && AllDigits(s, 10) && (|s| > 1 ==> s[0] != '0')
    ensures PrintNumeral(Numeral(s, 10), 10, false) == s
    ensures s != "0" ==> Numeral(s, 10) >= 1
    decreases |s|
  {
    var front, last := s[..|s| - 1], s[|s| - 1];
    assert s == front + [last];
    NumeralSnoc(front, last);
    PrintSnoc(Numeral(front, 10), last);
    if front == "" {
      assert s == [last];
    } else {
      PrintCanonical(front);
      assert front[0] == s[0];
    }
  }

  lemma ParsePrinted(n: nat, radix: nat, upper: bool, max: nat)
    requires radix == 10 || radix == 16
    requires n <= max
    ensures ParseUint(PrintNumeral(n, radix, upper), radix, max) == Ok(n)
  {
    var s := PrintNumeral(n, radix, upper);
    assert s[0] in s;
    assert NumeralOf(s, s, radix);
    ParseUintExactly(s, radix, max, n);
  }
}
