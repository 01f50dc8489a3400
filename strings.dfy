/**
 * The Python string and text-file primitives that MdParser relies on:
 * `str.replace`, `str.join`, `str.strip`, `str(n)` for a natural number,
 * the `\w` character class, text-mode newline translation and `readline`.
 */
module Strings {

  /** The first index of a character of `cs` in `s`, or `|s|` when there is none. */
  function IndexOf(s: string, cs: set<char>): (i: nat)
    ensures i <= |s|
    ensures i < |s| ==> s[i] in cs
    ensures forall k :: 0 <= k < i ==> s[k] !in cs
  {
    if s == [] then 0
    else if s[0] in cs then 0
    else 1 + IndexOf(s[1..], cs)
  }

  /** `p` occurs somewhere in `s`. */
  predicate Occurs(p: string, s: string) {
    exists i :: 0 <= i <= |s| && p <= s[i..]
  }

  /** A character missing from a text is missing from its first character and its tail. */
  lemma NotInTail(s: string, c: char)
    requires s != [] && c !in s
    ensures s[0] != c && c !in s[1..]
  {
    assert forall i :: 0 <= i < |s[1..]| ==> s[1..][i] == s[i + 1];
  }

  /** Python's `s.replace(pat, rep)`: every non-overlapping occurrence of `pat`,
      found scanning from the left, is replaced by `rep`; an empty `pat`
      inserts `rep` before every character and at the end. */
  function Replace(s: string, pat: string, rep: string): string
    decreases |s|
  {
    if pat == [] then InsertEverywhere(s, rep)
    else if pat <= s then rep + Replace(s[|pat|..], pat, rep)
    else if s == [] then []
    else [s[0]] + Replace(s[1..], pat, rep)
  }

  function InsertEverywhere(s: string, rep: string): string {
    if s == [] then rep else rep + [s[0]] + InsertEverywhere(s[1..], rep)
  }

  /** Text without an occurrence of the pattern comes back unchanged. */
  lemma {:induction false} ReplaceAbsent(s: string, pat: string, rep: string)
    requires pat != [] && !Occurs(pat, s)
    ensures Replace(s, pat, rep) == s
  {
    if s != [] {
      assert s[0..] == s;
      assert !(pat <= s);
      assert !Occurs(pat, s[1..]) by {
        forall i | 0 <= i <= |s[1..]| ensures !(pat <= s[1..][i..]) {
          assert s[1..][i..] == s[i + 1..];
        }
      }
      ReplaceAbsent(s[1..], pat, rep);
    }
  }

  /** A prefix that does not contain the pattern's first character is left
      alone and does not affect how the rest is replaced. */
  lemma {:induction false} ReplaceAfterPrefix(a: string, s: string, pat: string, rep: string)
    requires pat != [] && pat[0] !in a
    ensures Replace(a + s, pat, rep) == a + Replace(s, pat, rep)
  {
    if a != [] {
      assert (a + s)[0] == a[0] && a[0] != pat[0];
      assert !(pat <= a + s);
      assert (a + s)[1..] == a[1..] + s;
      assert pat[0] !in a[1..];
      calc {
        Replace(a + s, pat, rep);
        [a[0]] + Replace((a + s)[1..], pat, rep);
        [a[0]] + Replace(a[1..] + s, pat, rep);
        { ReplaceAfterPrefix(a[1..], s, pat, rep); }
        [a[0]] + (a[1..] + Replace(s, pat, rep));
        { assert a == [a[0]] + a[1..]; }
        a + Replace(s, pat, rep);
      }
    } else {
      assert a + s == s;
    }
  }

  /** Text that does not contain the pattern's first character is unchanged. */
  lemma ReplaceWithoutFirstChar(s: string, pat: string, rep: string)
    requires pat != [] && pat[0] !in s
    ensures Replace(s, pat, rep) == s
  {
    ReplaceAfterPrefix(s, [], pat, rep);
    assert s + [] == s;
  }

  /** A single occurrence, framed by text without the pattern's first
      character, is replaced and nothing else changes. */
  lemma ReplaceSingle(a: string, pat: string, b: string, rep: string)
    requires pat != [] && pat[0] !in a && pat[0] !in b
    ensures Replace(a + pat + b, pat, rep) == a + rep + b
  {
    calc {
      Replace(a + pat + b, pat, rep);
      { assert a + pat + b == a + (pat + b); }
      Replace(a + (pat + b), pat, rep);
      { ReplaceAfterPrefix(a, pat + b, pat, rep); }
      a + Replace(pat + b, pat, rep);
      { ReplaceAtFront(pat, b, rep); ReplaceWithoutFirstChar(b, pat, rep); }
      a + (rep + b);
      { assert a + (rep + b) == a + rep + b; }
      a + rep + b;
    }
  }

  /** A prefix at none of whose positions the pattern starts, even reaching
      into what follows, is left alone and does not affect how the rest is
      replaced. */
  lemma {:induction false} ReplaceSkip(x: string, y: string, pat: string, rep: string)
    requires pat != [] && forall i :: 0 <= i < |x| ==> !(pat <= (x + y)[i..])
    ensures Replace(x + y, pat, rep) == x + Replace(y, pat, rep)
  {
    if x != [] {
      var s := x + y;
      assert !(pat <= s) by { assert s[0..] == s; }
      assert s[1..] == x[1..] + y;
      forall i | 0 <= i < |x[1..]| ensures !(pat <= (x[1..] + y)[i..]) {
        assert (x[1..] + y)[i..] == s[i + 1..];
      }
      calc {
        Replace(s, pat, rep);
        [s[0]] + Replace(s[1..], pat, rep);
        { ReplaceSkip(x[1..], y, pat, rep); }
        [x[0]] + (x[1..] + Replace(y, pat, rep));
        { assert x == [x[0]] + x[1..]; }
        x + Replace(y, pat, rep);
      }
    } else {
      assert x + y == y;
    }
  }

  /** An occurrence at the front is replaced and scanning resumes after it. */
  lemma ReplaceAtFront(pat: string, y: string, rep: string)
    requires pat != []
    ensures Replace(pat + y, pat, rep) == rep + Replace(y, pat, rep)
  {
    assert (pat + y)[|pat|..] == y;
  }

  /** Python's `sep.join(parts)`. */
  function Join(parts: seq<string>, sep: string): string
    decreases |parts|
  {
    if parts == [] then ""
    else if |parts| == 1 then parts[0]
    else parts[0] + sep + Join(parts[1..], sep)
  }

  /** The concatenation of all parts: `''.join(parts)`. */
  function Concat(parts: seq<string>): string {
    if parts == [] then "" else parts[0] + Concat(parts[1..])
  }

  lemma {:induction false} ConcatAppend(parts: seq<string>, last: string)
    ensures Concat(parts + [last]) == Concat(parts) + last
  {
    if parts != [] {
      assert (parts + [last])[1..] == parts[1..] + [last];
      ConcatAppend(parts[1..], last);
    }
  }

  /** The characters for which Python's `str.isspace()` is true. */
  predicate IsSpace(c: char) {
    || '\t' <= c <= '\r'
    || '\U{1c}' <= c <= ' '
    || c == '\U{85}' || c == '\U{a0}' || c == '\U{1680}'
    || '\U{2000}' <= c <= '\U{200a}'
    || c == '\U{2028}' || c == '\U{2029}' || c == '\U{202f}' || c == '\U{205f}' || c == '\U{3000}'
  }

  predicate AllSpace(s: string) {
    forall i :: 0 <= i < |s| ==> IsSpace(s[i])
  }

  lemma AllSpaceCons(c: char, r: string)
    ensures AllSpace([c] + r) <==> IsSpace(c) && AllSpace(r)
  {
    var t := [c] + r;
    assert t[0] == c;
    assert forall i :: 0 <= i < |r| ==> t[i + 1] == r[i];
    if IsSpace(c) && AllSpace(r) {
      forall i | 0 <= i < |t| ensures IsSpace(t[i]) {
        if i > 0 { assert t[i] == r[i - 1]; }
      }
    }
  }

  /** Python's `s.lstrip()`. */
  function StripLeading(s: string): (r: string)
    ensures r == [] <==> AllSpace(s)
    ensures r != [] ==> !IsSpace(r[0])
  {
    if s != [] && IsSpace(s[0]) then StripLeading(s[1..]) else s
  }

  /** Python's `s.rstrip()`. */
  function StripTrailing(s: string): (r: string)
    ensures r == [] <==> AllSpace(s)
    ensures r <= s
  {
    if s != [] && IsSpace(s[|s| - 1]) then StripTrailing(s[..|s| - 1]) else s
  }

  /** Python's `s.strip()`. */
  function Strip(s: string): (r: string)
    ensures r == [] <==> AllSpace(s)
  {
    var t := StripLeading(s);
    assert t != [] ==> !AllSpace(t) by {
      if t != [] { assert !IsSpace(t[0]); }
    }
    StripTrailing(t)
  }

  /** Python's `s.replace(c, '')` for a single character `c`. */
  function RemoveChar(s: string, c: char): (r: string)
    ensures c !in r
    ensures IsSpace(c) ==> (AllSpace(r) <==> AllSpace(s))
  {
    if s == [] then []
    else if s[0] == c then RemoveChar(s[1..], c)
    else
      var rest := RemoveChar(s[1..], c);
      AllSpaceCons(s[0], rest);
      AllSpaceCons(s[0], s[1..]);
      assert s == [s[0]] + s[1..];
      [s[0]] + rest
  }

  /** The characters of the regular-expression class `\w`, restricted to ASCII. */
  predicate IsWordChar(c: char) {
    'a' <= c <= 'z' || 'A' <= c <= 'Z' || '0' <= c <= '9' || c == '_'
  }

  /** A non-empty run of word characters: what `\w+` matches. */
  predicate IsWord(s: string) {
    |s| > 0 && forall i :: 0 <= i < |s| ==> IsWordChar(s[i])
  }

  predicate IsDigit(c: char) {
    '0' <= c <= '9'
  }

  /** Python's `str(n)` for a natural number. */
  function NatToString(n: nat): (r: string)
    ensures |r| > 0 && forall i :: 0 <= i < |r| ==> IsDigit(r[i])
  {
    if n < 10 then ["0123456789"[n]] else NatToString(n / 10) + ["0123456789"[n % 10]]
  }

  /** The number a string of decimal digits denotes. */
  function DecimalValue(s: string): nat
    requires forall i :: 0 <= i < |s| ==> IsDigit(s[i])
  {
    if s == [] then 0
    else
      var d := s[|s| - 1];
      assert IsDigit(d);
      10 * DecimalValue(s[..|s| - 1]) + (d as int - '0' as int)
  }

  /** `str(n)` can be read back as `n`, so distinct numbers have distinct strings. */
  lemma {:induction false} NatToStringRoundTrip(n: nat)
    ensures DecimalValue(NatToString(n)) == n
  {
    var r := NatToString(n);
    if n < 10 {
      assert r[..0] == [];
    } else {
      assert r[..|r| - 1] == NatToString(n / 10);
      NatToStringRoundTrip(n / 10);
    }
  }

  /** Text-mode reading with universal newlines: every "\r\n" and every lone
      "\r" of the file becomes "\n". */
  function TranslateNewlines(s: string): (r: string)
    ensures '\r' !in r
  {
    if s == [] then []
    else if s[0] == '\r' then
      "\n" + TranslateNewlines(if |s| >= 2 && s[1] == '\n' then s[2..] else s[1..])
    else [s[0]] + TranslateNewlines(s[1..])
  }

  /** A line as `readline` returns it: not empty, and a "\n" only at its end. */
  predicate IsLine(l: string) {
    l != [] && forall k :: 0 <= k < |l| - 1 ==> l[k] != '\n'
  }

  /** A line that `readline` ended at a "\n" rather than at the end of the text. */
  predicate EndsInNewline(l: string) {
    l != [] && l[|l| - 1] == '\n'
  }

  /** The successive results of `readline` on a text, up to the first empty one. */
  function ReadLines(text: string): seq<string>
    decreases |text|
  {
    if text == [] then []
    else
      var n := IndexOf(text, {'\n'});
      if n == |text| then [text] else [text[..n + 1]] + ReadLines(text[n + 1..])
  }

  /** Reading the lines loses nothing and cuts only after a "\n": every
      line but the last ends in one, and the last ends in one or at the
      end of the text. */
  lemma ReadLinesSplitsText(text: string)
    ensures Concat(ReadLines(text)) == text
    ensures forall i :: 0 <= i < |ReadLines(text)| ==> IsLine(ReadLines(text)[i])
    ensures forall i :: 0 <= i < |ReadLines(text)| - 1 ==> EndsInNewline(ReadLines(text)[i])
  {
    ReadLinesConcat(text);
    ReadLinesAreLines(text);
    ReadLinesEndInNewline(text);
  }

  lemma {:induction false} ReadLinesConcat(text: string)
    ensures Concat(ReadLines(text)) == text
    decreases |text|
  {
    if text != [] {
      var n := IndexOf(text, {'\n'});
      if n < |text| {
        ReadLinesConcat(text[n + 1..]);
        var ls := ReadLines(text);
        var rest := ReadLines(text[n + 1..]);
        assert ls == [text[..n + 1]] + rest;
        calc {
          Concat(ls);
          { assert ls[1..] == rest; }
          text[..n + 1] + Concat(rest);
          text[..n + 1] + text[n + 1..];
          { assert text[..n + 1] + text[n + 1..] == text; }
          text;
        }
      }
    }
  }

  lemma {:induction false} ReadLinesAreLines(text: string)
    ensures forall i :: 0 <= i < |ReadLines(text)| ==> IsLine(ReadLines(text)[i])
    decreases |text|
  {
    if text != [] {
      var n := IndexOf(text, {'\n'});
      if n < |text| {
        ReadLinesAreLines(text[n + 1..]);
        var ls := ReadLines(text);
        var rest := ReadLines(text[n + 1..]);
        assert ls == [text[..n + 1]] + rest;
        forall i | 0 <= i < |ls| ensures IsLine(ls[i]) {
          if i > 0 { assert ls[i] == rest[i - 1]; }
        }
      }
    }
  }

  /** Every line `readline` yields but the last ends in a "\n". */
  lemma {:induction false} ReadLinesEndInNewline(text: string)
    ensures forall i :: 0 <= i < |ReadLines(text)| - 1 ==> EndsInNewline(ReadLines(text)[i])
    decreases |text|
  {
    if text != [] {
      var n := IndexOf(text, {'\n'});
      if n < |text| {
        ReadLinesEndInNewline(text[n + 1..]);
        var ls := ReadLines(text);
        var rest := ReadLines(text[n + 1..]);
        assert ls == [text[..n + 1]] + rest;
        assert EndsInNewline(ls[0]);
        forall i | 1 <= i < |ls| - 1 ensures EndsInNewline(ls[i]) {
          assert ls[i] == rest[i - 1];
        }
      }
    }
  }

  /** No line read from translated text contains a "\r". */
  lemma {:induction false} ReadLinesWithoutCarriageReturn(text: string)
    requires '\r' !in text
    ensures forall i :: 0 <= i < |ReadLines(text)| ==> '\r' !in ReadLines(text)[i]
  {
    if text != [] {
      var n := IndexOf(text, {'\n'});
      if n < |text| {
        assert '\r' !in text[n + 1..] by {
          assert forall k :: n + 1 <= k < |text| ==> text[k] != '\r';
        }
        ReadLinesWithoutCarriageReturn(text[n + 1..]);
        var ls := ReadLines(text);
        forall i | 0 <= i < |ls| ensures '\r' !in ls[i] {
          if i > 0 { assert ls[i] == ReadLines(text[n + 1..])[i - 1]; }
        }
      }
    }
  }
}
