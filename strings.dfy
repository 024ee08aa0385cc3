/**
 * The Python string built-ins the file manager relies on, stated over
 * `seq<char>`: `str.isspace`, `str.strip`, `str.split()` (on runs of
 * whitespace), `str.split(sep)`, `sep.join(...)`, `str(int)` and `int(str)`.
 */
module Strings {

  import opened Wrappers

  /** Python's whitespace (the characters for which `str.isspace()` holds);
      `str.strip()` and `str.split()` without arguments use exactly these. */
  predicate IsSpace(c: char) {
    var n := c as int;
    || (0x09 <= n <= 0x0D) || (0x1C <= n <= 0x20) || n == 0x85 || n == 0xA0
    || n == 0x1680 || (0x2000 <= n <= 0x200A) || n == 0x2028 || n == 0x2029
    || n == 0x202F || n == 0x205F || n == 0x3000
  }

  /** A field of `str.split()`: non-empty and free of whitespace. */
  predicate IsWord(w: string) {
    |w| > 0 && forall i :: 0 <= i < |w| ==> !IsSpace(w[i])
  }

  predicate AllWords(ws: seq<string>) {
    forall i :: 0 <= i < |ws| ==> IsWord(ws[i])
  }

  // ---------------------------------------------------------------- strip

  /** `str.lstrip()`: drops the leading whitespace and nothing else. */
  function TrimStart(s: string): (r: string)
    ensures |r| <= |s| && r == s[|s| - |r|..]
    ensures forall k :: 0 <= k < |s| - |r| ==> IsSpace(s[k])
    ensures r == [] || !IsSpace(r[0])
  {
    if s == [] || !IsSpace(s[0]) then s else TrimStart(s[1..])
  }

  /** `str.rstrip()`: drops the trailing whitespace and nothing else. */
  function TrimEnd(s: string): (r: string)
    ensures |r| <= |s| && r == s[..|r|]
    ensures forall k :: |r| <= k < |s| ==> IsSpace(s[k])
    ensures r == [] || !IsSpace(r[|r| - 1])
  {
    if s == [] || !IsSpace(s[|s| - 1]) then s else TrimEnd(s[..|s| - 1])
  }

  /** `str.strip()`: `TrimEnd` of `TrimStart`, the middle of `s` that
      starts and ends with a non-whitespace character; the contracts of
      those two state that everything cut away is whitespace. */
  function Strip(s: string): (r: string)
    ensures r == [] || (!IsSpace(r[0]) && !IsSpace(r[|r| - 1]))
    ensures r == [] <==> forall k :: 0 <= k < |s| ==> IsSpace(s[k])
  {
    var t := TrimStart(s);
    var r := TrimEnd(t);
    StripEmpty(s, t, r);
    r
  }

  lemma StripEmpty(s: string, t: string, r: string)
    requires t == TrimStart(s) && r == TrimEnd(t)
    ensures r == [] <==> forall k :: 0 <= k < |s| ==> IsSpace(s[k])
  {
    var d := |s| - |t|;
    if r == [] {
      forall k | 0 <= k < |s| ensures IsSpace(s[k]) {
        if k >= d { assert s[k] == t[k - d]; }
      }
    } else {
      assert r[0] == t[0] == s[d];
    }
  }

  // ---------------------------------------------------------------- split and join

  /** `sep.join(parts)`. */
  function JoinOn(parts: seq<string>, sep: char): string {
    if parts == [] then ""
    else if |parts| == 1 then parts[0]
    else parts[0] + [sep] + JoinOn(parts[1..], sep)
  }

  /** Position of the first `c` in `s`, or `|s|` when there is none. */
  function IndexOf(s: string, c: char): (i: nat)
    ensures i <= |s|
    ensures forall k :: 0 <= k < i ==> s[k] != c
    ensures i < |s| ==> s[i] == c
  {
    if s == [] then 0 else if s[0] == c then 0 else 1 + IndexOf(s[1..], c)
  }

  /** `s.split(sep)` for a one-character separator: there is always at
      least one piece. */
  function SplitOn(s: string, sep: char): (parts: seq<string>)
    ensures |parts| >= 1
    decreases |s|
  {
    var i := IndexOf(s, sep);
    if i == |s| then [s] else [s[..i]] + SplitOn(s[i + 1..], sep)
  }

  /** No piece of a split holds the separator, and joining the pieces with
      the separator gives the string back: `sep.join(s.split(sep)) == s`. */
  lemma {:induction false} SplitJoin(s: string, sep: char)
    ensures forall i :: 0 <= i < |SplitOn(s, sep)| ==> sep !in SplitOn(s, sep)[i]
    ensures JoinOn(SplitOn(s, sep), sep) == s
    decreases |s|
  {
    var i := IndexOf(s, sep);
    if i < |s| {
      SplitJoin(s[i + 1..], sep);
      assert s == s[..i] + [sep] + s[i + 1..];
      var parts := SplitOn(s, sep);
      forall k | 0 <= k < |parts| ensures sep !in parts[k] {
        if k > 0 { assert parts[k] == SplitOn(s[i + 1..], sep)[k - 1]; }
      }
    }
  }

  /** Length of the run of non-whitespace characters at the start of `s`. */
  function WordLen(s: string): (n: nat)
    ensures n <= |s|
    ensures forall k :: 0 <= k < n ==> !IsSpace(s[k])
    ensures n == |s| || IsSpace(s[n])
  {
    if s == [] || IsSpace(s[0]) then 0 else 1 + WordLen(s[1..])
  }

  /** `s.split()`: the maximal runs of non-whitespace characters, in order. */
  function Fields(s: string): (ws: seq<string>)
    ensures AllWords(ws)
    decreases |s|
  {
    if s == [] then []
    else if IsSpace(s[0]) then Fields(s[1..])
    else
      var n := WordLen(s);
      [s[..n]] + Fields(s[n..])
  }

  lemma {:induction false} WordLenOfWord(w: string, rest: string)
    requires IsWord(w)
    requires rest == [] || IsSpace(rest[0])
    ensures WordLen(w + rest) == |w|
    decreases |w|
  {
    var s := w + rest;
    assert s[0] == w[0];
    if |w| > 1 {
      assert s[1..] == w[1..] + rest;
      WordLenOfWord(w[1..], rest);
    } else {
      assert s[1..] == rest;
    }
  }

  /** A word followed by whitespace (or nothing) splits off as one field. */
  lemma FieldsOfWordThen(w: string, rest: string)
    requires IsWord(w)
    requires rest == [] || IsSpace(rest[0])
    ensures Fields(w + rest) == [w] + Fields(rest)
  {
    var s := w + rest;
    WordLenOfWord(w, rest);
    assert s[0] == w[0];
    assert s[..|w|] == w;
    assert s[|w|..] == rest;
  }

  lemma AllWordsTail(ws: seq<string>)
    requires AllWords(ws) && ws != []
    ensures AllWords(ws[1..])
  {
    forall i | 0 <= i < |ws| - 1 ensures IsWord(ws[1..][i]) { assert ws[1..][i] == ws[i + 1]; }
  }

  /** Splitting a single-space join of words gives the words back:
      `' '.join(ws).split() == ws`. */
  lemma {:induction false} FieldsOfJoin(ws: seq<string>)
    requires AllWords(ws)
    ensures Fields(JoinOn(ws, ' ')) == ws
  {
    if ws == [] {
    } else if |ws| == 1 {
      assert ws[0] + [] == ws[0];
      FieldsOfWordThen(ws[0], []);
    } else {
      AllWordsTail(ws);
      FieldsOfJoin(ws[1..]);
      FieldsOfJoinCons(ws);
    }
  }

  lemma FieldsOfJoinCons(ws: seq<string>)
    requires |ws| > 1 && IsWord(ws[0])
    requires Fields(JoinOn(ws[1..], ' ')) == ws[1..]
    ensures Fields(JoinOn(ws, ' ')) == ws
  {
    var tail := JoinOn(ws[1..], ' ');
    var rest := [' '] + tail;
    assert JoinOn(ws, ' ') == ws[0] + rest;
    FieldsOfWordThen(ws[0], rest);
    assert rest[1..] == tail;
    assert ws == [ws[0]] + ws[1..];
  }

  /** A single-space join of words has no whitespace at either end. */
  lemma {:induction false} JoinEnds(ws: seq<string>)
    requires AllWords(ws) && ws != []
    ensures var s := JoinOn(ws, ' ');
      |s| > 0 && s[0] == ws[0][0] && s[|s| - 1] == ws[|ws| - 1][|ws[|ws| - 1]| - 1]
  {
    if |ws| > 1 {
      AllWordsTail(ws);
      JoinEnds(ws[1..]);
    }
  }

  /** Stripping a single-space join of words changes nothing. */
  lemma StripOfJoin(ws: seq<string>)
    requires AllWords(ws) && ws != []
    ensures Strip(JoinOn(ws, ' ')) == JoinOn(ws, ' ')
  {
    JoinEnds(ws);
  }

  // ---------------------------------------------------------------- integers

  predicate IsDigit(c: char) {
    '0' <= c <= '9'
  }

  function DigitChar(d: nat): (c: char)
    requires d < 10
    ensures IsDigit(c) && c as int - '0' as int == d
  {
    (d + '0' as int) as char
  }

  /** `str(n)` for a natural number: decimal digits, no leading zero. */
  function NatToString(n: nat): (s: string)
    ensures |s| >= 1
    ensures forall i :: 0 <= i < |s| ==> IsDigit(s[i])
    ensures |s| > 1 ==> s[0] != '0'
  {
    if n < 10 then [DigitChar(n)] else NatToString(n / 10) + [DigitChar(n % 10)]
  }

  /** `str(i)` for any integer: a minus sign in front of a negative one. */
  function IntToString(i: int): string {
    if i < 0 then "-" + NatToString(-i) else NatToString(i)
  }

  /** The digit strings Python's `int()` accepts after the sign: digits,
      with single underscores allowed between two digits. */
  predicate DigitGroups(t: string) {
    && |t| > 0 && IsDigit(t[0]) && IsDigit(t[|t| - 1])
    && (forall i :: 0 <= i < |t| ==> IsDigit(t[i]) || t[i] == '_')
    && (forall i :: 0 <= i < |t| - 1 ==> t[i] == '_' ==> t[i + 1] != '_')
  }

  /** The value of a digit string, underscores skipped. */
  function DigitsValue(t: string): (v: nat)
    requires forall i :: 0 <= i < |t| ==> IsDigit(t[i]) || t[i] == '_'
  {
    if t == [] then 0
    else
      var init := t[..|t| - 1];
      var last := t[|t| - 1];
      assert forall i :: 0 <= i < |init| ==> init[i] == t[i];
      assert IsDigit(last) || last == '_';
      if last == '_' then DigitsValue(init) else DigitsValue(init) * 10 + (last as int - '0' as int)
  }

  /** The whitespace `int()` skips around a number. It turns every non-ASCII
      whitespace character into a space and then skips the ASCII space, tab,
      line feed, vertical tab, form feed and carriage return; the ASCII
      separators U+001C to U+001F, which `str.isspace()` accepts, are kept
      and make the string invalid. */
  predicate IsIntSpace(c: char) {
    IsSpace(c) && !(0x1C <= c as int <= 0x1F)
  }

  /** Drops the leading whitespace `int()` skips and nothing else. */
  function IntTrimStart(s: string): (r: string)
    ensures |r| <= |s| && r == s[|s| - |r|..]
    ensures forall k :: 0 <= k < |s| - |r| ==> IsIntSpace(s[k])
    ensures r == [] || !IsIntSpace(r[0])
  {
    if s == [] || !IsIntSpace(s[0]) then s else IntTrimStart(s[1..])
  }

  /** Drops the trailing whitespace `int()` skips and nothing else. */
  function IntTrimEnd(s: string): (r: string)
    ensures |r| <= |s| && r == s[..|r|]
    ensures forall k :: |r| <= k < |s| ==> IsIntSpace(s[k])
    ensures r == [] || !IsIntSpace(r[|r| - 1])
  {
    if s == [] || !IsIntSpace(s[|s| - 1]) then s else IntTrimEnd(s[..|s| - 1])
  }

  /** Python's `int(s)` on a string of ASCII digits: the whitespace of
      `IsIntSpace` around it is ignored, an optional sign is allowed;
      `None` where `int` raises. */
  function ParseInt(s: string): Option<int> {
    ParseStripped(IntTrimEnd(IntTrimStart(s)))
  }

  /** `int` once the surrounding whitespace is gone: an optional sign and
      digit groups. */
  function ParseStripped(t: string): Option<int> {
    if |t| > 0 && (t[0] == '+' || t[0] == '-') then
      if DigitGroups(t[1..]) then
        var v: int := DigitsValue(t[1..]);
        Some(if t[0] == '-' then -v else v)
      else None
    else if DigitGroups(t) then Some(DigitsValue(t))
    else None
  }

  lemma {:induction false} DigitsValueOfNat(n: nat)
    ensures DigitsValue(NatToString(n)) == n
  {
    var s := NatToString(n);
    if n >= 10 {
      DigitsValueOfNat(n / 10);
      assert s[..|s| - 1] == NatToString(n / 10);
    }
  }

  /** A string that neither starts nor ends with whitespace `int()` skips
      is left as it is. */
  lemma IntTrimUnchanged(s: string)
    requires s == [] || (!IsIntSpace(s[0]) && !IsIntSpace(s[|s| - 1]))
    ensures IntTrimEnd(IntTrimStart(s)) == s
  {
    assert IntTrimStart(s) == s;
  }

  lemma DigitGroupsOfNat(n: nat)
    ensures DigitGroups(NatToString(n))
  {
  }

  /** `int` on digits alone: the value of the digits. */
  lemma ParseDigits(t: string)
    requires DigitGroups(t)
    ensures ParseInt(t) == Some(DigitsValue(t) as int)
  {
    assert !IsIntSpace(t[0]) && !IsIntSpace(t[|t| - 1]);
    IntTrimUnchanged(t);
    assert ParseStripped(t) == Some(DigitsValue(t) as int);
  }

  /** `int` on a minus sign followed by digits: minus their value. */
  lemma ParseMinus(d: string)
    requires DigitGroups(d)
    ensures ParseInt("-" + d) == Some(-(DigitsValue(d) as int))
  {
    var t := "-" + d;
    assert t[1..] == d;
    assert ParseStripped(t) == Some(-(DigitsValue(d) as int));
    assert t[|t| - 1] == d[|d| - 1];
    assert !IsIntSpace(t[0]) && !IsIntSpace(t[|t| - 1]);
    IntTrimUnchanged(t);
  }

  /** Printing a natural number gives digits of that value. */
  lemma NatDigits(n: nat)
    ensures DigitGroups(NatToString(n)) && DigitsValue(NatToString(n)) == n
  {
    DigitsValueOfNat(n);
    DigitGroupsOfNat(n);
  }

  /** `int(str(i)) == i`: printing an integer and parsing it back is the
      identity. */
  lemma IntRoundTrip(i: int)
    ensures ParseInt(IntToString(i)) == Some(i)
  {
    var n: nat := if i < 0 then -i else i;
    NatDigits(n);
    if i < 0 {
      ParseMinus(NatToString(n));
    } else {
      ParseDigits(NatToString(n));
    }
  }

  lemma {:induction false} IntTrimStartAfter(w: string, u: string)
    requires forall k :: 0 <= k < |w| ==> IsIntSpace(w[k])
    requires u == [] || !IsIntSpace(u[0])
    ensures IntTrimStart(w + u) == u
  {
    if w == [] {
      assert w + u == u;
    } else {
      assert (w + u)[1..] == w[1..] + u;
      IntTrimStartAfter(w[1..], u);
    }
  }

  lemma {:induction false} IntTrimEndBefore(u: string, w: string)
    requires forall k :: 0 <= k < |w| ==> IsIntSpace(w[k])
    requires u == [] || !IsIntSpace(u[|u| - 1])
    ensures IntTrimEnd(u + w) == u
  {
    if w == [] {
      assert u + w == u;
    } else {
      var s := u + w;
      assert s[..|s| - 1] == u + w[..|w| - 1];
      IntTrimEndBefore(u, w[..|w| - 1]);
    }
  }

  /** Cutting the skipped whitespace from a padded `t` gives back `t`. */
  lemma IntTrimAround(w1: string, t: string, w2: string)
    requires forall k :: 0 <= k < |w1| ==> IsIntSpace(w1[k])
    requires forall k :: 0 <= k < |w2| ==> IsIntSpace(w2[k])
    requires t == [] || (!IsIntSpace(t[0]) && !IsIntSpace(t[|t| - 1]))
    ensures IntTrimEnd(IntTrimStart(w1 + t + w2)) == t
  {
    if t == [] {
      IntTrimBlank(w1, w2);
    } else {
      var u := t + w2;
      assert w1 + t + w2 == w1 + u;
      assert u[0] == t[0];
      IntTrimStartAfter(w1, u);
      IntTrimEndBefore(t, w2);
    }
  }

  lemma IntTrimBlank(w1: string, w2: string)
    requires forall k :: 0 <= k < |w1| ==> IsIntSpace(w1[k])
    requires forall k :: 0 <= k < |w2| ==> IsIntSpace(w2[k])
    ensures IntTrimEnd(IntTrimStart(w1 + [] + w2)) == []
  {
    var w := w1 + [] + w2;
    forall k | 0 <= k < |w| ensures IsIntSpace(w[k]) {
      if k < |w1| { assert w[k] == w1[k]; } else { assert w[k] == w2[k - |w1|]; }
    }
    IntTrimStartBlank(w);
  }

  lemma {:induction false} IntTrimStartBlank(w: string)
    requires forall k :: 0 <= k < |w| ==> IsIntSpace(w[k])
    ensures IntTrimStart(w) == []
  {
    if w != [] {
      assert IsIntSpace(w[0]);
      IntTrimStartBlank(w[1..]);
    }
  }

  /** `int` ignores the whitespace it skips around a number: padding `t`
      with it on either side does not change what `t` parses to. */
  lemma ParseSkipsSpace(w1: string, t: string, w2: string)
    requires forall k :: 0 <= k < |w1| ==> IsIntSpace(w1[k])
    requires forall k :: 0 <= k < |w2| ==> IsIntSpace(w2[k])
    requires t == [] || (!IsIntSpace(t[0]) && !IsIntSpace(t[|t| - 1]))
    ensures ParseInt(w1 + t + w2) == ParseInt(t)
  {
    IntTrimAround(w1, t, w2);
    IntTrimUnchanged(t);
  }

  /** A string holding one of the separators U+001C to U+001F, anywhere,
      is rejected by `int`: they are not skipped, and no sign or digit. */
  lemma ParseRejectsSeparator(s: string, i: int)
    requires 0 <= i < |s| && 0x1C <= s[i] as int <= 0x1F
    ensures ParseInt(s) == None
  {
    var t1 := IntTrimStart(s);
    var t := IntTrimEnd(t1);
    var d := |s| - |t1|;
    assert !IsIntSpace(s[i]);
    assert d <= i;
    assert t1[i - d] == s[i];
    assert i - d < |t|;
    assert t[i - d] == s[i];
    assert !IsDigit(s[i]) && s[i] != '_' && s[i] != '+' && s[i] != '-';
    if i - d > 0 {
      assert t[1..][i - d - 1] == s[i];
    }
  }
}
