/**
 * Placeholder substitution (`MdParser.replacePlaceholder`): for every key of a
 * mapping, in the mapping's order, each literal `{{__key__}}` is replaced by
 * the value; afterwards every remaining match of `\{\{__\w+__\}\}` is deleted.
 */
module Placeholders {
  import opened Wrappers
  import opened Strings

  /** A mapping as Python iterates it: key and value (already in its `str()`
      form) pairs, in insertion order. */
  type Mapping = seq<(string, string)>

  /** Parsed metadata: every top-level key with the `str()` form of its value,
      and the nested mapping under the key `template` when there is one. */
  datatype Metadata = Metadata(fields: Mapping, template: Option<Mapping>)

  /** No two entries of the mapping have the same key, as in a Python dict. */
  predicate DistinctKeys(m: Mapping) {
    forall i, j :: 0 <= i < j < |m| ==> m[i].0 != m[j].0
  }

  /** The placeholder for a key: `{{__key__}}`. */
  function Token(key: string): string {
    "{{__" + key + "__}}"
  }

  /** The texts the pattern `\{\{__\w+__\}\}` matches. */
  predicate IsToken(t: string) {
    && |t| >= 9
    && t[..4] == "{{__"
    && t[|t| - 4..] == "__}}"
    && forall i :: 4 <= i < |t| - 4 ==> IsWordChar(t[i])
  }

  /** The placeholder of a key is a pattern match exactly when the key is a word. */
  lemma TokenIsMatch(key: string)
    ensures IsToken(Token(key)) <==> IsWord(key)
  {
    var t := Token(key);
    assert t[..4] == "{{__" && t[|t| - 4..] == "__}}";
    assert forall i :: 4 <= i < |t| - 4 ==> t[i] == key[i - 4];
    if IsToken(t) {
      forall i | 0 <= i < |key| ensures IsWordChar(key[i]) {
        assert key[i] == t[i + 4];
      }
    }
  }

  /** Where each part of a placeholder sits. */
  lemma TokenLayout(key: string)
    ensures var t, n := Token(key), |key|;
      && |t| == n + 8
      && t[0] == '{' && t[1] == '{' && t[2] == '_' && t[3] == '_'
      && (forall i :: 0 <= i < n ==> t[i + 4] == key[i])
      && t[n + 4] == '_' && t[n + 5] == '_' && t[n + 6] == '}' && t[n + 7] == '}'
  {
  }

  /** The placeholder of a word key starts a text that begins with the
      placeholder of another word key only when the two keys are the same:
      both keys are followed by `__}}`, which no word character matches. */
  lemma TokenNotPrefix(k: string, k': string, x: string)
    requires IsWord(k) && IsWord(k') && k' != k
    ensures !(Token(k') <= Token(k) + x)
  {
    TokenLayout(k);
    TokenLayout(k');
    var t, t' := Token(k) + x, Token(k');
    var n, n' := |k|, |k'|;
    assert forall i :: 0 <= i < n + 8 ==> t[i] == Token(k)[i];
    if n' < n {
      if n' + 6 < n + 4 { assert t[n' + 6] == k[n' + 2]; }
      assert t[n' + 6] != t'[n' + 6];
    } else if n < n' {
      if n + 6 < n' + 4 { assert t'[n + 6] == k'[n + 2]; }
      assert t[n + 6] != t'[n + 6];
    } else {
      var i :| 0 <= i < n && k[i] != k'[i];
      assert t[i + 4] != t'[i + 4];
    }
  }

  /** Text in which no `{{` starts: every `{` is followed by another character. */
  predicate BraceSafe(s: string) {
    forall i :: 0 <= i < |s| && s[i] == '{' ==> i + 1 < |s| && s[i + 1] != '{'
  }

  /** The first `{` of a placeholder, dropped, leaves brace-safe text. */
  lemma TokenTailBraceSafe(k: string)
    requires IsWord(k)
    ensures BraceSafe(Token(k)[1..])
  {
    TokenLayout(k);
    var t := Token(k)[1..];
    forall i | 0 <= i < |t| ensures t[i] == '{' ==> i == 0 {
      if 3 <= i < |k| + 3 { assert t[i] == k[i - 3]; }
    }
  }

  /** No pattern beginning with `{{` starts inside brace-safe text. */
  lemma BraceSafeNoPattern(x: string, y: string, pat: string)
    requires BraceSafe(x) && |pat| >= 2 && pat[0] == '{' && pat[1] == '{'
    ensures forall i :: 0 <= i < |x| ==> !(pat <= (x + y)[i..])
  {
    forall i | 0 <= i < |x| ensures !(pat <= (x + y)[i..]) {
      var s := (x + y)[i..];
      assert s[0] == x[i];
      if x[i] == '{' { assert s[1] == x[i + 1]; }
    }
  }

  /** Brace-safe text is left alone by the replacement of a pattern that
      begins with `{{`, and does not affect how the rest is replaced. */
  lemma BraceSafeReplace(x: string, y: string, pat: string, rep: string)
    requires BraceSafe(x) && |pat| >= 2 && pat[0] == '{' && pat[1] == '{'
    ensures Replace(x + y, pat, rep) == x + Replace(y, pat, rep)
  {
    BraceSafeNoPattern(x, y, pat);
    ReplaceSkip(x, y, pat, rep);
  }

  /** Replacing a word key leaves the placeholder of another word key at the
      front, and the rest is replaced on its own. */
  lemma ReplaceTokenOther(k': string, y: string, k: string, v: string)
    requires IsWord(k) && IsWord(k') && k' != k
    ensures Replace(Token(k') + y, Token(k), v) == Token(k') + Replace(y, Token(k), v)
  {
    var x := Token(k');
    TokenLayout(k);
    TokenNotPrefix(k', k, y);
    TokenTailBraceSafe(k');
    BraceSafeNoPattern(x[1..], y, Token(k));
    forall i | 0 <= i < |x| ensures !(Token(k) <= (x + y)[i..]) {
      if i > 0 {
        assert (x + y)[i..] == (x[1..] + y)[i - 1..];
      } else {
        assert (x + y)[0..] == x + y;
      }
    }
    ReplaceSkip(x, y, Token(k), v);
  }

  /** A placeholder of another word key never starts at the placeholder of
      a word key, nor at its second character. */
  lemma ReplaceAtOtherToken(k: string, b: string, k': string, rep: string)
    requires '{' !in b && IsWord(k) && IsWord(k') && k' != k
    ensures Replace(Token(k) + b, Token(k'), rep) == Token(k) + b
  {
    ReplaceTokenOther(k, b, k', rep);
    TokenLayout(k');
    ReplaceWithoutFirstChar(b, Token(k'), rep);
  }


  /** Replacing one word key's placeholder leaves the placeholder of another
      word key, framed by text without `{`, as it is. */
  lemma ReplaceOtherToken(a: string, k: string, b: string, k': string, rep: string)
    requires '{' !in a && '{' !in b && IsWord(k) && IsWord(k') && k' != k
    ensures Replace(a + Token(k) + b, Token(k'), rep) == a + Token(k) + b
  {
    ReplaceAtOtherToken(k, b, k', rep);
    assert Token(k')[0] == '{';
    ReplaceAfterPrefix(a, Token(k) + b, Token(k'), rep);
    assert a + Token(k) + b == a + (Token(k) + b);
  }

  /** The number of leading word characters of `s`. */
  function WordRun(s: string): (n: nat)
    ensures n <= |s|
    ensures forall i :: 0 <= i < n ==> IsWordChar(s[i])
    ensures n < |s| ==> !IsWordChar(s[n])
  {
    if s != [] && IsWordChar(s[0]) then 1 + WordRun(s[1..]) else 0
  }

  /** The length of the pattern match that starts at the front of `s`, if any.
      As `\w+` cannot run past the closing `}}`, it backtracks only over the
      last two of its word characters, so the match is the longest word run
      after `{{__`, ending in `__`, followed by `}}`. */
  function TokenLength(s: string): (r: Option<nat>)
    ensures r.Some? ==> 9 <= r.value <= |s|
  {
    if |s| >= 4 && s[..4] == "{{__" then
      var j := 4 + WordRun(s[4..]);
      if j >= 7 && j + 2 <= |s| && s[j - 2..j + 2] == "__}}" then Some(j + 2) else None
    else None
  }

  /** The scanner finds a match at the front of `s` exactly when a prefix of
      `s` is a match, and then it is that prefix: matches at one position are
      unique. */
  lemma TokenLengthIff(s: string, n: nat)
    ensures TokenLength(s) == Some(n) <==> n <= |s| && IsToken(s[..n])
  {
    if n <= |s| && IsToken(s[..n]) {
      var t := s[..n];
      assert s[..4] == t[..4];
      var w := WordRun(s[4..]);
      assert forall i :: 4 <= i < n - 2 ==> IsWordChar(s[i]) by {
        assert forall i :: 4 <= i < n - 4 ==> s[i] == t[i];
        assert s[n - 4] == t[|t| - 4..][0] && s[n - 3] == t[|t| - 4..][1];
      }
      assert s[n - 2] == t[|t| - 4..][2];
      assert forall i :: 0 <= i < |s| - 4 ==> s[4..][i] == s[4 + i];
      assert w == n - 6;
      assert s[n - 4..n] == t[|t| - 4..];
    }
    if TokenLength(s) == Some(n) {
      var j := n - 2;
      var t := s[..n];
      assert t[|t| - 4..] == s[j - 2..j + 2];
      assert forall i :: 4 <= i < |t| - 4 ==> t[i] == s[4..][i - 4];
    }
  }

  /** Python's `re.sub(r'\{\{__\w+__\}\}', '', s)`: matches are deleted
      scanning from the left, without overlap. */
  function StripTokens(s: string): (r: string)
    ensures |r| <= |s|
    decreases |s|
  {
    if s == [] then []
    else match TokenLength(s)
      case Some(n) => StripTokens(s[n..])
      case None => [s[0]] + StripTokens(s[1..])
  }

  /** No substring of `s` is a placeholder match. */
  predicate NoToken(s: string) {
    forall i, j :: 0 <= i <= j <= |s| ==> !IsToken(s[i..j])
  }

  lemma NoTokenTail(s: string)
    requires s != [] && NoToken(s)
    ensures NoToken(s[1..])
  {
    forall i, j | 0 <= i <= j <= |s[1..]| ensures !IsToken(s[1..][i..j]) {
      assert s[1..][i..j] == s[i + 1..j + 1];
    }
  }

  /** A match anywhere in `s` makes the deletion pass shorten it. */
  lemma {:induction false} TokenShortens(s: string, i: nat, j: nat)
    requires i <= j <= |s| && IsToken(s[i..j])
    ensures |StripTokens(s)| < |s|
    decreases |s|
  {
    match TokenLength(s)
    case Some(n) =>
    case None =>
      if i == 0 {
        TokenLengthIff(s, j);
      } else {
        assert s[1..][i - 1..j - 1] == s[i..j];
        TokenShortens(s[1..], i - 1, j - 1);
      }
  }

  /** A text without a match is its own deletion result. */
  lemma {:induction false} NoTokenIsFixpoint(s: string)
    requires NoToken(s)
    ensures StripTokens(s) == s
    decreases |s|
  {
    if s != [] {
      if TokenLength(s).Some? {
        var n := TokenLength(s).value;
        assert !IsToken(s[0..n]);
        assert s[0..n] == s[..n];
        TokenLengthIff(s, n);
        assert false;
      }
      NoTokenTail(s);
      NoTokenIsFixpoint(s[1..]);
      assert s == [s[0]] + s[1..];
    }
  }

  /** The deletion pass leaves a text unchanged exactly when it has no match. */
  lemma StripTokensFixpointIff(s: string)
    ensures StripTokens(s) == s <==> NoToken(s)
  {
    if NoToken(s) {
      NoTokenIsFixpoint(s);
    } else {
      var i, j :| 0 <= i <= j <= |s| && IsToken(s[i..j]);
      TokenShortens(s, i, j);
    }
  }

  /** Deletion leaves a prefix without `{` as it is. */
  lemma {:induction false} StripTokensAfterPrefix(a: string, s: string)
    requires '{' !in a
    ensures StripTokens(a + s) == a + StripTokens(s)
  {
    if a != [] {
      assert (a + s)[0] == a[0];
      assert (a + s)[1..] == a[1..] + s;
      assert TokenLength(a + s) == None by {
        assert |a + s| >= 4 ==> (a + s)[..4][0] == (a + s)[0];
      }
      StripTokensAfterPrefix(a[1..], s);
      assert a == [a[0]] + a[1..];
    } else {
      assert a + s == s;
    }
  }

  /** Brace-safe text is kept by the deletion pass, and does not affect how
      the rest is treated. */
  lemma {:induction false} BraceSafeStrip(x: string, y: string)
    requires BraceSafe(x)
    ensures StripTokens(x + y) == x + StripTokens(y)
  {
    if x != [] {
      BraceSafeHead(x, y);
      BraceSafeTail(x);
      KeepFirstOfFront(x, y);
      BraceSafeStrip(x[1..], y);
      ConsConcat(x, StripTokens(y));
    } else {
      assert x + y == y;
    }
  }

  /** Putting back the first character. */
  lemma ConsConcat(x: string, u: string)
    requires x != []
    ensures [x[0]] + (x[1..] + u) == x + u
  {
    assert x == [x[0]] + x[1..];
  }

  /** No match starts at the front of text that starts brace-safe. */
  lemma BraceSafeHead(x: string, y: string)
    requires BraceSafe(x) && x != []
    ensures TokenLength(x + y) == None
  {
    var s := x + y;
    assert s[0] == x[0];
    if x[0] == '{' { assert s[1] == x[1]; }
    NoMatchWithoutOpening(s);
  }

  /** Where no match starts, the first character of the front part is kept. */
  lemma KeepFirstOfFront(x: string, y: string)
    requires x != [] && TokenLength(x + y) == None
    ensures StripTokens(x + y) == [x[0]] + StripTokens(x[1..] + y)
  {
    assert (x + y)[1..] == x[1..] + y;
    StripTokensKeepsFirst(x + y);
  }

  /** The tail of brace-safe text is brace-safe. */
  lemma BraceSafeTail(x: string)
    requires BraceSafe(x) && x != []
    ensures BraceSafe(x[1..])
  {
    assert forall i :: 0 <= i < |x[1..]| ==> x[1..][i] == x[i + 1];
  }

  /** No match starts where the text does not begin with `{{`. */
  lemma NoMatchWithoutOpening(s: string)
    requires s != [] && (s[0] != '{' || (|s| >= 2 && s[1] != '{'))
    ensures TokenLength(s) == None
  {
    if |s| >= 4 { assert s[..4][0] == s[0] && s[..4][1] == s[1]; }
  }

  /** Where no match starts, the deletion pass keeps the first character. */
  lemma StripTokensKeepsFirst(s: string)
    requires s != [] && TokenLength(s) == None
    ensures StripTokens(s) == [s[0]] + StripTokens(s[1..])
  {
  }

  /** Where no match starts at a `{`, the deletion pass keeps it. */
  lemma BraceKept(t: string)
    requires TokenLength(['{'] + t) == None
    ensures StripTokens(['{'] + t) == ['{'] + StripTokens(t)
  {
    assert (['{'] + t)[1..] == t;
  }

  /** An opening `{{__` not followed by a word character starts no match. */
  lemma NoMatchAtOpening(x: string)
    requires x != [] && !IsWordChar(x[0])
    ensures TokenLength("{{__" + x) == None
  {
    var s := "{{__" + x;
    assert s[4..] == x;
    assert WordRun(x) == 0;
  }

  /** An opening `{{__` not followed by a word character is kept up to the
      first `{`. */
  lemma OpeningKept(x: string)
    requires x != [] && !IsWordChar(x[0])
    ensures StripTokens("{{__" + x) == "{" + StripTokens("{__" + x)
  {
    NoMatchAtOpening(x);
    assert "{{__" + x == ['{'] + ("{__" + x);
    BraceKept("{__" + x);
  }

  /** The second `{` of an opening is kept as well: no match starts at a `{`
      followed by `_`. */
  lemma SecondBraceKept(x: string)
    ensures StripTokens("{__" + x) == "{" + StripTokens("__" + x)
  {
    var t := "__" + x;
    assert "{__" + x == ['{'] + t;
    assert |['{'] + t| >= 4 ==> (['{'] + t)[1] == '_';
    BraceKept(t);
  }

  /** Three kept prefixes in a row make up `{{__`. */
  lemma KeptOpening(r: string, r1: string, r2: string, y: string)
    requires r == "{" + r1 && r1 == "{" + r2 && r2 == "__" + y
    ensures r == "{{__" + y
  {
  }

  /** An opening `{{__` not followed by a word character is kept. */
  lemma StripTokensUnmatchedOpening(x: string)
    requires x != [] && !IsWordChar(x[0])
    ensures StripTokens("{{__" + x) == "{{__" + StripTokens(x)
  {
    OpeningKept(x);
    SecondBraceKept(x);
    StripTokensAfterPrefix("__", x);
    KeptOpening(StripTokens("{{__" + x), StripTokens("{__" + x), StripTokens("__" + x), StripTokens(x));
  }

  /** A placeholder at the front is deleted and the rest is scanned on. */
  lemma StripTokensLeadingPlaceholder(w: string, x: string)
    requires IsWord(w)
    ensures StripTokens(Token(w) + x) == StripTokens(x)
  {
    TokenIsMatch(w);
    var s := Token(w) + x;
    var n := |Token(w)|;
    assert s[..n] == Token(w);
    TokenLengthIff(s, n);
    assert s[n..] == x;
  }

  /** The inner placeholder of the example below is deleted. */
  lemma InnerPlaceholderDeleted(w: string)
    requires IsWord(w)
    ensures StripTokens(Token(w) + (w + "__}}")) == w + "__}}"
  {
    var tail := w + "__}}";
    WordTailWithoutBrace(w);
    StripTokensLeadingPlaceholder(w, tail);
    StripTokensAfterPrefix(tail, "");
    assert tail + "" == tail;
  }

  /** A word followed by the closing `__}}` holds no `{`. */
  lemma WordTailWithoutBrace(w: string)
    requires IsWord(w)
    ensures '{' !in w + "__}}"
  {
    var tail := w + "__}}";
    forall i | 0 <= i < |tail| ensures tail[i] != '{' {
      if i < |w| {
        assert tail[i] == w[i] && IsWordChar(w[i]);
      }
    }
  }

  /** Deletion of all matches does not remove all matches: for every word `w`,
      deleting the inner placeholder of `{{__{{__w__}}w__}}` (for `w` = `a`:
      `{{__{{__a__}}a__}}`) joins the outer halves into a new placeholder. */
  lemma DeletionCanCreatePlaceholder(w: string)
    requires IsWord(w)
    ensures StripTokens("{{__" + Token(w) + w + "__}}") == Token(w)
    ensures IsToken(Token(w))
  {
    var tail := w + "__}}";
    var inner := Token(w) + tail;
    assert "{{__" + Token(w) + w + "__}}" == "{{__" + inner;
    assert "{{__" + tail == Token(w);
    StripTokensOuter(w, inner, tail);
    TokenIsMatch(w);
  }

  /** The opening `{{__` in front of the inner placeholder is kept. */
  lemma StripTokensOuter(w: string, inner: string, tail: string)
    requires IsWord(w) && tail == w + "__}}" && inner == Token(w) + tail
    ensures StripTokens("{{__" + inner) == "{{__" + tail
  {
    InnerPlaceholderDeleted(w);
    assert inner[0] == '{';
    StripTokensUnmatchedOpening(inner);
  }

  /** The literal-replacement pass: each key in order, over the text so far. */
  function ReplaceKeys(m: Mapping, text: string): string
    decreases |m|
  {
    if m == [] then text else ReplaceKeys(m[1..], Replace(text, Token(m[0].0), m[0].1))
  }

  /** What `replacePlaceholder(m, text)` returns. */
  function Substitute(m: Mapping, text: string): string {
    StripTokens(ReplaceKeys(m, text))
  }

  /** `MdParser.replacePlaceholder`: the loop over the keys, then the deletion pass. */
  method ReplacePlaceholder(m: Mapping, text: string) returns (r: string)
    ensures r == Substitute(m, text)
  {
    r := text;
    var i := 0;
    while i < |m|
      invariant 0 <= i <= |m|
      invariant ReplaceKeys(m[i..], r) == ReplaceKeys(m, text)
    {
      assert m[i..][1..] == m[i + 1..];
      r := Replace(r, Token(m[i].0), m[i].1);
      i := i + 1;
    }
    r := StripTokens(r);
  }

  /** A text without placeholder matches contains no placeholder of a word key. */
  lemma NoTokenExcludesKey(text: string, key: string)
    requires NoToken(text) && IsWord(key)
    ensures !Occurs(Token(key), text)
  {
    TokenIsMatch(key);
    var n := |Token(key)|;
    forall i | 0 <= i <= |text| ensures !(Token(key) <= text[i..]) {
      if i + n <= |text| {
        assert !IsToken(text[i..i + n]);
        assert text[i..][..n] == text[i..i + n];
      }
    }
  }

  /** Substituting a fully resolved text (no placeholder match left) with a
      mapping whose keys are words is a no-op; so is substituting it twice. */
  lemma {:induction false} SubstituteResolvedText(m: Mapping, text: string)
    requires forall i :: 0 <= i < |m| ==> IsWord(m[i].0)
    requires NoToken(text)
    ensures ReplaceKeys(m, text) == text
    ensures Substitute(m, text) == text
    decreases |m|
  {
    if m != [] {
      NoTokenExcludesKey(text, m[0].0);
      ReplaceAbsent(text, Token(m[0].0), m[0].1);
      SubstituteResolvedText(m[1..], text);
    }
    StripTokensFixpointIff(text);
  }

  /** Literal replacement leaves a text without `{` alone, whatever the keys. */
  lemma {:induction false} ReplaceKeysWithoutBrace(m: Mapping, text: string)
    requires '{' !in text
    ensures ReplaceKeys(m, text) == text
    decreases |m|
  {
    if m != [] {
      ReplaceWithoutFirstChar(text, Token(m[0].0), m[0].1);
      ReplaceKeysWithoutBrace(m[1..], text);
    }
  }

  /** A text without `{` is left alone by the whole substitution. */
  lemma SubstituteWithoutBrace(m: Mapping, text: string)
    requires '{' !in text
    ensures Substitute(m, text) == text
  {
    ReplaceKeysWithoutBrace(m, text);
    StripTokensAfterPrefix(text, "");
    assert text + "" == text;
  }

  /** A placeholder of a word key that no key of the mapping names is left
      for the deletion pass, which removes it. */
  lemma {:induction false} SubstituteUnknownKey(m: Mapping, a: string, k: string, b: string)
    requires '{' !in a && '{' !in b && IsWord(k)
    requires forall i :: 0 <= i < |m| ==> IsWord(m[i].0) && m[i].0 != k
    ensures ReplaceKeys(m, a + Token(k) + b) == a + Token(k) + b
    ensures Substitute(m, a + Token(k) + b) == a + b
    decreases |m|
  {
    if m != [] {
      ReplaceOtherToken(a, k, b, m[0].0, m[0].1);
      SubstituteUnknownKey(m[1..], a, k, b);
    }
    assert a + Token(k) + b == a + (Token(k) + b);
    StripTokensAfterPrefix(a, Token(k) + b);
    StripTokensLeadingPlaceholder(k, b);
    StripTokensAfterPrefix(b, "");
    assert b + "" == b;
  }

  /** The first key's placeholder takes its value; a value without `{` is
      then final. */
  lemma SubstituteFirstKey(m: Mapping, a: string, b: string)
    requires m != [] && '{' !in a && '{' !in b && '{' !in m[0].1
    ensures Substitute(m, a + Token(m[0].0) + b) == a + m[0].1 + b
  {
    ReplaceSingle(a, Token(m[0].0), b, m[0].1);
    SubstituteWithoutBrace(m[1..], a + m[0].1 + b);
  }

  /** The placeholder of any key takes the value of the key's first entry:
      the entries before it name other keys, whose replacements leave it
      alone. */
  lemma {:induction false} SubstituteKeyAt(m: Mapping, i: nat, a: string, b: string)
    requires i < |m| && '{' !in a && '{' !in b && '{' !in m[i].1 && IsWord(m[i].0)
    requires forall j :: 0 <= j < i ==> IsWord(m[j].0) && m[j].0 != m[i].0
    ensures Substitute(m, a + Token(m[i].0) + b) == a + m[i].1 + b
    decreases i
  {
    if i == 0 {
      SubstituteFirstKey(m, a, b);
    } else {
      ReplaceOtherToken(a, m[i].0, b, m[0].0, m[0].1);
      assert m[1..][i - 1] == m[i];
      SubstituteKeyAt(m[1..], i - 1, a, b);
    }
  }
}
