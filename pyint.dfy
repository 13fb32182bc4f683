/**
 * Python's `int(text)` on a string, base 10, as the bot uses it to read the
 * amount of a `timeout` duration and the target of an `unban`.
 *
 * Accepted: optional whitespace, an optional `+` or `-`, one or more decimal
 * digits where a single `_` may stand between two digits, optional
 * whitespace. Everything else raises `ValueError`, modelled as `None`.
 */
module PyInt {
  import opened Wrappers

  /** The ASCII characters that `int()` skips around a number. */
  predicate IsSpace(c: char) {
    c == ' ' || c == '\t' || c == '\n' || c == '\r' || c == '\U{000B}' || c == '\U{000C}'
  }

  predicate AllSpace(s: string) {
    forall i :: 0 <= i < |s| ==> IsSpace(s[i])
  }

  predicate IsDigit(c: char) {
    '0' <= c <= '9'
  }

  predicate AllDigits(s: string) {
    forall i :: 0 <= i < |s| ==> IsDigit(s[i])
  }

  predicate IsSign(s: string) {
    s == "" || s == "+" || s == "-"
  }

  function DigitValue(c: char): (d: nat)
    requires IsDigit(c)
    ensures d < 10
  {
    c as int - '0' as int
  }

  function DigitChar(d: nat): (c: char)
    requires d < 10
    ensures IsDigit(c) && DigitValue(c) == d
  {
    ('0' as int + d) as char
  }

  /** How many whitespace characters open the string. */
  function LeadingSpaces(s: string): (n: nat)
    ensures n <= |s|
    ensures forall i :: 0 <= i < n ==> IsSpace(s[i])
    ensures n < |s| ==> !IsSpace(s[n])
  {
    if |s| > 0 && IsSpace(s[0]) then
      var rest := s[1..];
      var n := 1 + LeadingSpaces(rest);
      assert forall i :: 1 <= i < n ==> s[i] == rest[i - 1];
      n
    else
      0
  }

  /** How many whitespace characters close the string. */
  function TrailingSpaces(s: string): (n: nat)
    ensures n <= |s|
    ensures forall i :: |s| - n <= i < |s| ==> IsSpace(s[i])
    ensures n < |s| ==> !IsSpace(s[|s| - 1 - n])
  {
    if |s| > 0 && IsSpace(s[|s| - 1]) then
      var init := s[..|s| - 1];
      var n := 1 + TrailingSpaces(init);
      assert forall i :: |s| - n <= i < |s| - 1 ==> s[i] == init[i];
      n
    else
      0
  }

  predicate DigitsOrUnderscores(s: string) {
    forall i :: 0 <= i < |s| ==> IsDigit(s[i]) || s[i] == '_'
  }

  /** The digit part of a decimal literal: starts and ends with a digit, no two underscores in a row. */
  predicate WellFormedDigits(s: string) {
    && |s| > 0
    && IsDigit(s[0])
    && IsDigit(s[|s| - 1])
    && DigitsOrUnderscores(s)
    && (forall i :: 0 <= i < |s| - 1 && s[i] == '_' ==> s[i + 1] != '_')
  }

  /** The number the digits spell, underscores ignored. */
  function DigitsValue(s: string): nat
    requires DigitsOrUnderscores(s)
  {
    if s == [] then 0
    else if s[|s| - 1] == '_' then DigitsValue(s[..|s| - 1])
    else 10 * DigitsValue(s[..|s| - 1]) + DigitValue(s[|s| - 1])
  }

  function Signed(sign: string, n: nat): (r: int)
    ensures sign == "-" ==> r == -(n as int)
    ensures sign != "-" ==> r == n
  {
    if sign == "-" then -(n as int) else n
  }

  /** Whitespace removed from both ends, as `int()` does first. */
  function Strip(s: string): string {
    var t := s[LeadingSpaces(s)..];
    t[..|t| - TrailingSpaces(t)]
  }

  /** The sign and digits that remain once the whitespace is stripped. */
  function ParseStripped(t: string): Option<int> {
    if |t| > 0 && (t[0] == '+' || t[0] == '-') then
      if WellFormedDigits(t[1..]) then Some(Signed(t[..1], DigitsValue(t[1..]))) else None
    else if WellFormedDigits(t) then Some(DigitsValue(t))
    else None
  }

  /** `int(s)`: `Some(n)` when it returns `n`, `None` when it raises `ValueError`. */
  function ParseInt(s: string): Option<int> {
    ParseStripped(Strip(s))
  }

  /** Decimal rendering without leading zeros, as `str(n)` gives it. */
  function ShowNat(n: nat): (r: string)
    ensures |r| > 0
  {
    if n < 10 then [DigitChar(n)] else ShowNat(n / 10) + [DigitChar(n % 10)]
  }

  function Show(n: int): string {
    if n < 0 then "-" + ShowNat(-n) else ShowNat(n)
  }

  lemma {:induction false} ShowNatDigits(n: nat)
    ensures AllDigits(ShowNat(n)) && WellFormedDigits(ShowNat(n))
    ensures DigitsValue(ShowNat(n)) == n
  {
    var s := ShowNat(n);
    if n >= 10 {
      ShowNatDigits(n / 10);
      assert s[..|s| - 1] == ShowNat(n / 10);
    }
  }

  lemma {:induction false} LeadingSpacesOf(pre: string, x: string)
    requires AllSpace(pre)
    requires x == [] || !IsSpace(x[0])
    ensures LeadingSpaces(pre + x) == |pre|
  {
    if pre == [] {
      assert pre + x == x;
    } else {
      assert (pre + x)[1..] == pre[1..] + x;
      LeadingSpacesOf(pre[1..], x);
    }
  }

  lemma {:induction false} TrailingSpacesOf(x: string, post: string)
    requires AllSpace(post)
    requires x == [] || !IsSpace(x[|x| - 1])
    ensures TrailingSpaces(x + post) == |post|
  {
    if post == [] {
      assert x + post == x;
    } else {
      var init := post[..|post| - 1];
      assert (x + post)[..|x + post| - 1] == x + init;
      TrailingSpacesOf(x, init);
    }
  }

  lemma StripPadded(pre: string, t: string, post: string)
    requires AllSpace(pre) && AllSpace(post)
    requires |t| > 0 && !IsSpace(t[0]) && !IsSpace(t[|t| - 1])
    ensures Strip(pre + t + post) == t
  {
    var s := pre + t + post;
    assert s == pre + (t + post);
    LeadingSpacesOf(pre, t + post);
    assert s[|pre|..] == t + post;
    TrailingSpacesOf(t, post);
    assert (t + post)[..|t|] == t;
  }

  lemma StripSplit(s: string) returns (pre: string, post: string)
    ensures s == pre + Strip(s) + post
    ensures AllSpace(pre) && AllSpace(post)
  {
    var a := LeadingSpaces(s);
    var t1 := s[a..];
    var b := TrailingSpaces(t1);
    var c := |s| - b;
    assert Strip(s) == t1[..|t1| - b] == s[a..c];
    pre := s[..a];
    post := s[c..];
    assert forall i :: 0 <= i < |pre| ==> pre[i] == s[i];
    assert forall i :: 0 <= i < |post| ==> post[i] == t1[|t1| - b + i];
    Split3(s, a, c);
  }

  lemma Split3(s: string, a: nat, c: nat)
    requires a <= c <= |s|
    ensures s == s[..a] + s[a..c] + s[c..]
  {
    assert s[..a] + s[a..c] == s[..c];
  }

  lemma ParseStrippedAccepts(sign: string, body: string)
    requires IsSign(sign)
    requires WellFormedDigits(body)
    ensures ParseStripped(sign + body) == Some(Signed(sign, DigitsValue(body)))
  {
    var t := sign + body;
    if sign != "" {
      assert t[1..] == body;
      assert t[..1] == sign;
    } else {
      assert t == body;
    }
  }

  lemma ParseStrippedSound(t: string) returns (sign: string, body: string)
    requires ParseStripped(t).Some?
    ensures t == sign + body
    ensures IsSign(sign)
    ensures WellFormedDigits(body)
    ensures ParseStripped(t) == Some(Signed(sign, DigitsValue(body)))
  {
    if |t| > 0 && (t[0] == '+' || t[0] == '-') {
      sign, body := t[..1], t[1..];
    } else {
      sign, body := "", t;
    }
    assert t == sign + body;
  }

  /** Every string of the accepted shape parses, to the value its digits and sign spell. */
  lemma ParseIntAccepts(pre: string, sign: string, body: string, post: string)
    requires AllSpace(pre) && AllSpace(post)
    requires IsSign(sign)
    requires WellFormedDigits(body)
    ensures ParseInt(pre + sign + body + post) == Some(Signed(sign, DigitsValue(body)))
  {
    var t := sign + body;
    assert t[|t| - 1] == body[|body| - 1];
    assert t[0] == (if sign == "" then body[0] else sign[0]);
    assert pre + sign + body + post == pre + t + post;
    StripPadded(pre, t, post);
    ParseStrippedAccepts(sign, body);
  }

  /** Everything that parses has the accepted shape, and its value is what that shape spells. */
  lemma ParseIntSound(s: string) returns (pre: string, sign: string, body: string, post: string)
    requires ParseInt(s).Some?
    ensures s == pre + sign + body + post
    ensures AllSpace(pre) && AllSpace(post)
    ensures IsSign(sign)
    ensures WellFormedDigits(body)
    ensures ParseInt(s) == Some(Signed(sign, DigitsValue(body)))
  {
    var t := Strip(s);
    pre, post := StripSplit(s);
    sign, body := ParseStrippedSound(t);
    assert ParseInt(s) == ParseStripped(t);
    calc {
      s;
      pre + t + post;
      pre + (sign + body) + post;
      { assert pre + (sign + body) == pre + sign + body; }
      pre + sign + body + post;
    }
  }

  /** Each character of a string `int()` accepts is whitespace, a sign, a digit or an underscore. */
  lemma ParseIntAlphabet(s: string, i: nat)
    requires ParseInt(s).Some?
    requires i < |s|
    ensures IsSpace(s[i]) || IsDigit(s[i]) || s[i] == '+' || s[i] == '-' || s[i] == '_'
  {
    var pre, sign, body, post := ParseIntSound(s);
    if i < |pre| {
      assert s[i] == pre[i];
    } else if i < |pre| + |sign| {
      assert s[i] == sign[i - |pre|];
    } else if i < |pre| + |sign| + |body| {
      assert s[i] == body[i - |pre| - |sign|];
    } else {
      assert s[i] == post[i - |pre| - |sign| - |body|];
    }
  }

  /** A string `int()` accepts holds at least one digit. */
  lemma ParseIntHasDigit(s: string) returns (i: nat)
    requires ParseInt(s).Some?
    ensures i < |s| && IsDigit(s[i])
  {
    var pre, sign, body, post := ParseIntSound(s);
    i := |pre| + |sign|;
    assert s[i] == body[0];
  }

  /** `int()` of whitespace alone, the empty string included, raises. */
  lemma ParseIntRejectsBlank(s: string)
    requires AllSpace(s)
    ensures ParseInt(s) == None
  {
    if ParseInt(s).Some? {
      var i := ParseIntHasDigit(s);
      assert false;
    }
  }

  /** A character that is neither whitespace, sign, digit nor underscore makes `int()` raise. */
  lemma ParseIntRejectsForeign(s: string, i: nat)
    requires i < |s|
    requires !IsSpace(s[i]) && !IsDigit(s[i]) && s[i] != '+' && s[i] != '-' && s[i] != '_'
    ensures ParseInt(s) == None
  {
    if ParseInt(s).Some? {
      ParseIntAlphabet(s, i);
      assert false;
    }
  }

  /** A sign and well-formed digits, with no whitespace around them, parse. */
  lemma ParseUnpadded(sign: string, body: string)
    requires IsSign(sign) && WellFormedDigits(body)
    ensures ParseInt(sign + body) == Some(Signed(sign, DigitsValue(body)))
  {
    ParseIntAccepts("", sign, body, "");
    assert "" + sign + body + "" == sign + body;
  }

  /** `int(str(n)) == n`. */
  lemma ParseShow(n: int)
    ensures ParseInt(Show(n)) == Some(n)
  {
    var m: nat := if n < 0 then -n else n;
    var sign := if n < 0 then "-" else "";
    ShowNatDigits(m);
    ParseUnpadded(sign, ShowNat(m));
    assert Show(n) == sign + ShowNat(m);
  }
}
