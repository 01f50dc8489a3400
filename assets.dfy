/**
 * Asset relocation (`MdParser.checkForExternalFile`): references of the form
 * `[caption](path)` or `[caption](path "title")` found in a slide line are
 * rewritten to a numbered copy of the file, and a table from the original
 * path to the new name makes a second reference reuse the first copy.
 */
module Assets {
  import opened Wrappers
  import opened Strings

  /** A match of `\[[^\]]*\]\(([^ \)]*)(\)| )`: the caption (the bracketed text), the path (group 1)
      and the character that ends the path, `)` or a space (group 2). */
  datatype Link = Link(caption: string, path: string, term: char) {
    /** The matched text, group 0. */
    function Text(): string {
      "[" + caption + "](" + path + [term]
    }

    /** The constraints of the pattern's character classes. */
    predicate WellFormed() {
      ']' !in caption && ' ' !in path && ')' !in path && (term == ')' || term == ' ')
    }
  }

  /** The match that starts at the front of `s`, if any. Neither character
      class can run past the character that must follow it, so the first `]`
      ends the caption and the first space or `)` after `(` ends the path. */
  function LinkAt(s: string): Option<Link> {
    if s == [] || s[0] != '[' then None
    else
      var j := IndexOf(s, {']'});
      if j + 1 < |s| && s[j + 1] == '(' then
        var k := j + 2 + IndexOf(s[j + 2..], {' ', ')'});
        if k < |s| then
          Some(Link(s[1..j], s[j + 2..k], s[k]))
        else None
      else None
  }

  /** Whatever the scanner finds is a well-formed link. */
  lemma LinkAtSound(s: string)
    requires LinkAt(s).Some?
    ensures LinkAt(s).value.WellFormed() && LinkAt(s).value.Text() <= s
  {
    var l := LinkAt(s).value;
    var j := IndexOf(s, {']'});
    assert l.Text() == s[..|l.Text()|];
    var rest := s[j + 2..];
    var p := IndexOf(rest, {' ', ')'});
    assert l.path == rest[..p];
    assert forall i :: 0 <= i < |l.path| ==> l.path[i] == rest[i];
    assert forall i :: 0 <= i < |l.caption| ==> l.caption[i] == s[1 + i];
  }

  /** The position of each part of a link's text. */
  lemma LinkTextLayout(l: Link)
    ensures var t, n, p := l.Text(), |l.caption|, |l.path|;
      && |t| == n + p + 4
      && t[0] == '[' && t[n + 1] == ']' && t[n + 2] == '(' && t[n + p + 3] == l.term
      && t[1..n + 1] == l.caption && t[n + 3..n + p + 3] == l.path
  {
  }

  /** `IndexOf` is determined by its contract. */
  lemma IndexOfIs(s: string, cs: set<char>, k: nat)
    requires k <= |s| && (k < |s| ==> s[k] in cs) && forall i :: 0 <= i < k ==> s[i] !in cs
    ensures IndexOf(s, cs) == k
  {
  }

  /** A prefix agrees with the text on every slice inside it. */
  lemma PrefixSlice(t: string, s: string, a: nat, b: nat)
    requires t <= s && a <= b <= |t|
    ensures s[a..b] == t[a..b]
  {
    assert s[..|t|] == t;
  }

  /** Where the scanner's searches stop on a text that starts with a
      well-formed link. */
  lemma LinkAtSearches(s: string, l: Link)
    requires l.WellFormed() && l.Text() <= s
    ensures IndexOf(s, {']'}) == |l.caption| + 1
    ensures IndexOf(s[|l.caption| + 3..], {' ', ')'}) == |l.path|
  {
    var t, n, p := l.Text(), |l.caption|, |l.path|;
    LinkTextLayout(l);
    PrefixSlice(t, s, 0, n + p + 4);
    PrefixSlice(t, s, 1, n + 1);
    PrefixSlice(t, s, n + 3, n + p + 4);
    IndexOfIs(s, {']'}, n + 1) by {
      assert forall i :: 0 <= i < n ==> s[i + 1] == l.caption[i];
    }
    var rest := s[n + 3..];
    assert rest[..p + 1] == l.path + [l.term];
    IndexOfIs(rest, {' ', ')'}, p) by {
      assert forall i :: 0 <= i < p ==> rest[i] == l.path[i];
      assert rest[p] == l.term;
    }
  }

  /** A well-formed link at the front of `s` is what the scanner finds. */
  lemma LinkAtComplete(s: string, l: Link)
    requires l.WellFormed() && l.Text() <= s
    ensures LinkAt(s) == Some(l)
  {
    var t, n, p := l.Text(), |l.caption|, |l.path|;
    LinkTextLayout(l);
    LinkAtSearches(s, l);
    PrefixSlice(t, s, 0, n + p + 4);
    PrefixSlice(t, s, 1, n + 1);
    PrefixSlice(t, s, n + 3, n + p + 3);
    var j := IndexOf(s, {']'});
    var k := j + 2 + IndexOf(s[j + 2..], {' ', ')'});
    assert j == n + 1 && s[j + 1] == '(' && k == n + p + 3;
    assert s[1..j] == l.caption && s[j + 2..k] == l.path && s[k] == l.term;
  }

  /** The scanner finds a link at the front of `s` exactly when `s` starts with
      the text of a well-formed link, and then it is that link. */
  lemma LinkAtIff(s: string, l: Link)
    ensures LinkAt(s) == Some(l) <==> l.WellFormed() && l.Text() <= s
  {
    if LinkAt(s) == Some(l) {
      LinkAtSound(s);
    }
    if l.WellFormed() && l.Text() <= s {
      LinkAtComplete(s, l);
    }
  }

  /** What occurs in a suffix occurs in the whole text. */
  lemma OccursInSuffix(p: string, s: string, k: nat)
    requires k <= |s| && Occurs(p, s[k..])
    ensures Occurs(p, s)
  {
    var i :| 0 <= i <= |s[k..]| && p <= s[k..][i..];
    assert s[k..][i..] == s[k + i..];
  }

  /** Matches that occur in a suffix occur in the whole text. */
  lemma AllOccurInSuffix(ls: seq<Link>, s: string, k: nat)
    requires k <= |s| && forall i :: 0 <= i < |ls| ==> Occurs(ls[i].Text(), s[k..])
    ensures forall i :: 0 <= i < |ls| ==> Occurs(ls[i].Text(), s)
  {
    forall i | 0 <= i < |ls| ensures Occurs(ls[i].Text(), s) {
      OccursInSuffix(ls[i].Text(), s, k);
    }
  }

  /** `re.finditer` of the reference pattern over a line: the matches from left
      to right, the search resuming after the end of each match. */
  function Links(s: string): (ls: seq<Link>)
    ensures forall i :: 0 <= i < |ls| ==> ls[i].WellFormed() && Occurs(ls[i].Text(), s)
    decreases |s|
  {
    if s == [] then []
    else match LinkAt(s)
      case Some(l) =>
        LinkAtSound(s);
        var rest := Links(s[|l.Text()|..]);
        AllOccurInSuffix(rest, s, |l.Text()|);
        assert Occurs(l.Text(), s) by { assert s[0..] == s; }
        [l] + rest
      case None =>
        var rest := Links(s[1..]);
        AllOccurInSuffix(rest, s, 1);
        rest
  }

  /** A line without `[` holds no reference. */
  lemma {:induction false} NoLinksWithoutBracket(s: string)
    requires '[' !in s
    ensures Links(s) == []
    decreases |s|
  {
    if s != [] {
      assert LinkAt(s) == None;
      NoLinksWithoutBracket(s[1..]);
    }
  }

  /** Python's `os.path.basename` with `/` as the separator: what follows the last `/`. */
  function Basename(path: string): (b: string)
    ensures '/' !in b
    decreases |path|
  {
    if path == [] then []
    else if path[|path| - 1] == '/' then []
    else Basename(path[..|path| - 1]) + [path[|path| - 1]]
  }

  /** The base name is the tail of the path, and it is either the whole path
      or preceded by a `/`. */
  lemma {:induction false} BasenameIsLastComponent(path: string)
    ensures |Basename(path)| <= |path| && path[|path| - |Basename(path)|..] == Basename(path)
    ensures |Basename(path)| < |path| ==> path[|path| - |Basename(path)| - 1] == '/'
    decreases |path|
  {
    if path != [] && path[|path| - 1] != '/' {
      var init := path[..|path| - 1];
      var b := Basename(init);
      BasenameIsLastComponent(init);
      assert path[|path| - 1 - |b|..] == init[|init| - |b|..] + [path[|path| - 1]];
      assert |b| < |init| ==> path[|path| - |b| - 2] == init[|init| - |b| - 1];
    }
  }

  /** The index of the last `.` of `s`, if any. */
  function LastDot(s: string): (r: Option<nat>)
    ensures r.Some? ==> r.value < |s| && s[r.value] == '.' && forall k :: r.value < k < |s| ==> s[k] != '.'
    ensures r.None? ==> '.' !in s
  {
    if s == [] then None
    else if s[|s| - 1] == '.' then Some(|s| - 1)
    else
      var r := LastDot(s[..|s| - 1]);
      assert r.None? ==> '.' !in s by {
        assert s == s[..|s| - 1] + [s[|s| - 1]];
      }
      r
  }

  /** `LastDot` is determined by its contract. */
  lemma LastDotAt(s: string, q: nat)
    requires q < |s| && s[q] == '.' && forall k :: q < k < |s| ==> s[k] != '.'
    ensures LastDot(s) == Some(q)
  {
  }

  /** Python's `os.path.splitext` of a base name: the extension runs from the
      last `.` unless only dots precede that `.`. */
  function SplitExt(b: string): (r: (string, string))
    ensures r.0 + r.1 == b
    ensures r.1 == [] || (r.1[0] == '.' && '.' !in r.1[1..])
  {
    match LastDot(b)
    case None => (b, [])
    case Some(d) =>
      if forall i :: 0 <= i < d ==> b[i] == '.' then (b, [])
      else
        assert '.' !in b[d..][1..] by {
          assert forall k :: 0 <= k < |b[d..][1..]| ==> b[d..][1..][k] == b[d + 1 + k];
        }
        (b[..d], b[d..])
  }

  /** The name of the copy: the stem of the base name, `_`, the number, and the extension. */
  function TargetName(path: string, n: nat): string {
    var parts := SplitExt(Basename(path));
    parts.0 + "_" + NatToString(n) + parts.1
  }

  /** Every `.` of `s` is preceded by dots only, as in `.bashrc`. */
  predicate DotsLead(s: string) {
    forall i, k :: 0 <= i < k < |s| && s[k] == '.' ==> s[i] == '.'
  }

  /** When `splitext` finds no extension, the name is kept whole and has no
      `.` other than leading ones. */
  lemma SplitExtWithoutExt(b: string)
    requires SplitExt(b).1 == []
    ensures SplitExt(b).0 == b && DotsLead(b)
  {
    if LastDot(b).Some? {
      var d := LastDot(b).value;
      assert b[d..] != [];
    }
  }

  /** Where the stem, `_`, the number and the extension sit in a copy's name. */
  lemma TargetLayout(r: string, d: string, e: string)
    ensures var s := r + "_" + d + e;
      && |s| == |r| + 1 + |d| + |e| && s[|r|] == '_'
      && (forall i :: 0 <= i < |r| ==> s[i] == r[i])
      && (forall i :: 0 <= i < |d| ==> s[|r| + 1 + i] == d[i])
      && (forall i :: 0 <= i < |e| ==> s[|r| + 1 + |d| + i] == e[i])
  {
  }

  /** A name without extension: any `.` lies in the stem, behind dots only. */
  lemma SplitExtOfPlainTarget(r: string, d: string)
    requires forall i :: 0 <= i < |d| ==> IsDigit(d[i])
    requires DotsLead(r)
    ensures SplitExt(r + "_" + d) == (r + "_" + d, [])
  {
    var s := r + "_" + d;
    TargetLayout(r, d, []);
    assert s == r + "_" + d + [];
    if LastDot(s).Some? {
      var v := LastDot(s).value;
      assert v < |r| && r[v] == '.';
      assert forall i :: 0 <= i < v ==> s[i] == '.' by {
        assert forall i :: 0 <= i < v ==> r[i] == '.';
      }
    }
  }

  /** A name with an extension: its last `.` starts the extension and
      follows the `_`. */
  lemma SplitExtOfDottedTarget(r: string, d: string, e: string)
    requires forall i :: 0 <= i < |d| ==> IsDigit(d[i])
    requires e != [] && e[0] == '.' && '.' !in e[1..]
    ensures SplitExt(r + "_" + d + e) == (r + "_" + d, e)
  {
    var s := r + "_" + d + e;
    var q := |r| + 1 + |d|;
    TargetLayout(r, d, e);
    assert forall i :: 1 <= i < |e| ==> e[i] != '.' by {
      assert forall i :: 1 <= i < |e| ==> e[i] == e[1..][i - 1];
    }
    LastDotAt(s, q);
    assert s[..q] == r + "_" + d && s[q..] == e;
  }

  /** `splitext` of a copy's name gives back the stem and the extension the
      name was built from: the `_` before the number stops a leading run of
      dots. */
  lemma SplitExtOfTarget(r: string, d: string, e: string)
    requires forall i :: 0 <= i < |d| ==> IsDigit(d[i])
    requires e == [] || (e[0] == '.' && '.' !in e[1..])
    requires e == [] ==> DotsLead(r)
    ensures SplitExt(r + "_" + d + e) == (r + "_" + d, e)
  {
    if e == [] {
      SplitExtOfPlainTarget(r, d);
      assert r + "_" + d + e == r + "_" + d;
    } else {
      SplitExtOfDottedTarget(r, d, e);
    }
  }

  /** The length of the run of digits at the end of `s`. */
  function TrailingDigits(s: string): nat
    decreases |s|
  {
    if s != [] && IsDigit(s[|s| - 1]) then 1 + TrailingDigits(s[..|s| - 1]) else 0
  }

  /** After a `_`, the trailing digits are exactly the number. */
  lemma {:induction false} TrailingDigitsAfterUnderscore(r: string, d: string)
    requires forall i :: 0 <= i < |d| ==> IsDigit(d[i])
    ensures TrailingDigits(r + "_" + d) == |d|
    decreases |d|
  {
    var s := r + "_" + d;
    if d == [] {
      assert s[|s| - 1] == '_';
    } else {
      assert s[..|s| - 1] == r + "_" + d[..|d| - 1];
      TrailingDigitsAfterUnderscore(r, d[..|d| - 1]);
    }
  }

  /** Two copies with the same name carry the same number, whatever their
      paths: the number is the run of digits before the extension. */
  lemma TargetNameInjective(p: string, q: string, i: nat, j: nat)
    ensures TargetName(p, i) == TargetName(q, j) ==> i == j
  {
    if TargetName(p, i) == TargetName(q, j) {
      var parts1, parts2 := SplitExt(Basename(p)), SplitExt(Basename(q));
      var di, dj := NatToString(i), NatToString(j);
      if parts1.1 == [] {
        SplitExtWithoutExt(Basename(p));
      }
      if parts2.1 == [] {
        SplitExtWithoutExt(Basename(q));
      }
      SplitExtOfTarget(parts1.0, di, parts1.1);
      SplitExtOfTarget(parts2.0, dj, parts2.1);
      var m := parts1.0 + "_" + di;
      assert m == parts2.0 + "_" + dj;
      TrailingDigitsAfterUnderscore(parts1.0, di);
      TrailingDigitsAfterUnderscore(parts2.0, dj);
      assert di == m[|m| - |di|..] == dj;
      NatToStringRoundTrip(i);
      NatToStringRoundTrip(j);
    }
  }

  /** One `shutil.copy`: the referenced path and the name it is copied to. */
  datatype Copy = Copy(source: string, target: string)

  /** The table of external files and the copies made, after some matches. */
  datatype Registry = Registry(table: map<string, string>, copies: seq<Copy>)

  /** What one match does to the table: a known path or a path that is not a
      file leaves it alone; a new file is entered under the next number and
      copied. */
  function Register(path: string, table: map<string, string>, isFile: string -> bool): (r: Registry)
    ensures path in table || !isFile(path) ==> r == Registry(table, [])
    ensures path !in table && isFile(path) ==>
      && r.table.Keys == table.Keys + {path}
      && |r.table| == |table| + 1
      && (forall k :: k in table ==> r.table[k] == table[k])
      && r.table[path] == TargetName(path, |table| + 1)
      && r.copies == [Copy(path, r.table[path])]
  {
    if path in table || !isFile(path) then Registry(table, [])
    else
      var target := TargetName(path, |table| + 1);
      Registry(table[path := target], [Copy(path, target)])
  }

  /** What one match does to the line, given the table before and after it: a
      known path is replaced everywhere in the line by its recorded name; for a
      newly copied file the whole match is replaced by the match with the path
      renamed; otherwise the line is left alone. */
  function RewriteLink(l: Link, line: string, before: map<string, string>, after: map<string, string>): string {
    if l.path in before then Replace(line, l.path, before[l.path])
    else if l.path in after then Replace(line, l.Text(), Replace(l.Text(), l.path, after[l.path]))
    else line
  }

  /** A rewritten line, the table after it and the copies made for it. */
  datatype Relocation = Relocation(line: string, table: map<string, string>, copies: seq<Copy>)

  /** The work done for one match of the reference pattern. */
  function RelocateLink(l: Link, line: string, table: map<string, string>, isFile: string -> bool): (r: Relocation)
    ensures l.path in table ==>
      r == Relocation(Replace(line, l.path, table[l.path]), table, [])
    ensures l.path !in table && !isFile(l.path) ==> r == Relocation(line, table, [])
    ensures l.path !in table && isFile(l.path) ==>
      r.line == Replace(line, l.Text(), Replace(l.Text(), l.path, TargetName(l.path, |table| + 1)))
    ensures r.table == Register(l.path, table, isFile).table && r.copies == Register(l.path, table, isFile).copies
  {
    var reg := Register(l.path, table, isFile);
    Relocation(RewriteLink(l, line, table, reg.table), reg.table, reg.copies)
  }

  /** The loop over the matches, in order; `line` is the text rewritten so far. */
  function RelocateLinks(ls: seq<Link>, line: string, table: map<string, string>, isFile: string -> bool): Relocation
    decreases |ls|
  {
    if ls == [] then Relocation(line, table, [])
    else
      var first := RelocateLink(ls[0], line, table, isFile);
      var rest := RelocateLinks(ls[1..], first.line, first.table, isFile);
      Relocation(rest.line, rest.table, first.copies + rest.copies)
  }

  /** The same loop seen from the table alone, which never depends on the line. */
  function RegisterAll(ls: seq<Link>, table: map<string, string>, isFile: string -> bool): Registry
    decreases |ls|
  {
    if ls == [] then Registry(table, [])
    else
      var first := Register(ls[0].path, table, isFile);
      var rest := RegisterAll(ls[1..], first.table, isFile);
      Registry(rest.table, first.copies + rest.copies)
  }

  /** The table and the copies after the loop are those of `RegisterAll`,
      whatever the line. */
  lemma {:induction false} RelocateLinksRegisters(ls: seq<Link>, line: string, table: map<string, string>,
                                                isFile: string -> bool)
    ensures RelocateLinks(ls, line, table, isFile).table == RegisterAll(ls, table, isFile).table
    ensures RelocateLinks(ls, line, table, isFile).copies == RegisterAll(ls, table, isFile).copies
    decreases |ls|
  {
    if ls != [] {
      var first := RelocateLink(ls[0], line, table, isFile);
      RelocateLinksRegisters(ls[1..], first.line, first.table, isFile);
    }
  }

  /** What `checkForExternalFile(line)` does with the table: nothing when
      copying is switched off, otherwise the loop over the matches found in
      the ORIGINAL line. */
  function RelocateLine(skip: bool, table: map<string, string>, isFile: string -> bool, line: string): Relocation {
    if skip then Relocation(line, table, []) else RelocateLinks(Links(line), line, table, isFile)
  }

  /** Text without `[` in front of a line adds no match and does not move the others. */
  lemma {:induction false} LinksAfterPlainPrefix(a: string, s: string)
    requires '[' !in a
    ensures Links(a + s) == Links(s)
    decreases |a|
  {
    if a != [] {
      NotInTail(a, '[');
      LinksAfterPlainPrefix(a[1..], s);
      LinksSkipFront(a, s);
    } else {
      assert a + s == s;
    }
  }

  /** No match starts at a character other than `[`. */
  lemma LinksSkipChar(s: string)
    requires s != [] && s[0] != '['
    ensures Links(s) == Links(s[1..])
  {
    assert LinkAt(s) == None;
  }

  /** The same for a line with a front part. */
  lemma LinksSkipFront(a: string, s: string)
    requires a != [] && a[0] != '['
    ensures Links(a + s) == Links(a[1..] + s)
  {
    assert (a + s)[1..] == a[1..] + s;
    LinksSkipChar(a + s);
  }

  /** The matches of a line whose only `[`s are in one reference. */
  lemma OnlyLink(a: string, l: Link, b: string)
    requires '[' !in a && '[' !in b && l.WellFormed()
    ensures Links(a + l.Text() + b) == [l]
  {
    var t := l.Text();
    assert a + t + b == a + (t + b);
    LinksAfterPlainPrefix(a, t + b);
    LinkAtComplete(t + b, l);
    assert (t + b)[|t|..] == b;
    NoLinksWithoutBracket(b);
  }

  /** Renaming the path inside a reference's own text, when the path's first
      character does not occur before the path. */
  lemma RenamedLinkText(l: Link, target: string)
    requires l.WellFormed() && l.path != [] && l.path[0] !in "[" + l.caption + "]("
    ensures Replace(l.Text(), l.path, target) == Link(l.caption, target, l.term).Text()
  {
    assert l.path[0] != l.term;
    ReplaceSingle("[" + l.caption + "](", l.path, [l.term], target);
  }

  /** A line whose only reference names a new existing file: the reference,
      and nothing else, is rewritten to the numbered copy
      (`![alt](img.png "t")` becomes `![alt](img_1.png "t")`), which is
      entered in the table and copied. The path's first character must not
      occur in the text before the path, where `str.replace` would look first. */
  lemma RelocatedReference(a: string, l: Link, b: string, table: map<string, string>, isFile: string -> bool)
    requires '[' !in a && '[' !in b && l.WellFormed()
    requires l.path != [] && l.path[0] !in "[" + l.caption + "]("
    requires l.path !in table && isFile(l.path)
    ensures var target := TargetName(l.path, |table| + 1);
      RelocateLine(false, table, isFile, a + l.Text() + b)
        == Relocation(a + Link(l.caption, target, l.term).Text() + b, table[l.path := target], [Copy(l.path, target)])
  {
    var target := TargetName(l.path, |table| + 1);
    var renamed := Link(l.caption, target, l.term).Text();
    OnlyLink(a, l, b);
    RenamedLinkText(l, target);
    ReplaceSingle(a, l.Text(), b, renamed);
    var line := a + l.Text() + b;
    var first := RelocateLink(l, line, table, isFile);
    assert first == Relocation(a + renamed + b, table[l.path := target], [Copy(l.path, target)]);
    calc {
      RelocateLine(false, table, isFile, line);
      RelocateLinks([l], line, table, isFile);
      { assert [l][1..] == []; }
      Relocation(first.line, first.table, first.copies + []);
      { assert first.copies + [] == first.copies; }
      first;
    }
  }

  /** The table that a log of copies records: each copied path mapped to the
      name it was copied to. */
  function TableOf(copies: seq<Copy>): map<string, string>
    decreases |copies|
  {
    if copies == [] then map[]
    else TableOf(copies[..|copies| - 1])[copies[|copies| - 1].source := copies[|copies| - 1].target]
  }

  /** Every copy in the log is of a path not copied before, and the i-th copy
      (from 1) is named with the number i. */
  predicate Numbered(copies: seq<Copy>)
    decreases |copies|
  {
    copies == [] ||
    var init, last := copies[..|copies| - 1], copies[|copies| - 1];
    && Numbered(init)
    && last.source !in TableOf(init)
    && last.target == TargetName(last.source, |copies|)
  }

  /** The invariant tying the table of external files to the log of copies
      made so far: the table is exactly what the numbered log records. */
  predicate Journal(table: map<string, string>, copies: seq<Copy>) {
    Numbered(copies) && table == TableOf(copies)
  }

  /** One entry per copy. */
  lemma {:induction false} JournalSize(copies: seq<Copy>)
    requires Numbered(copies)
    ensures |TableOf(copies)| == |copies|
    decreases |copies|
  {
    if copies != [] {
      JournalSize(copies[..|copies| - 1]);
    }
  }

  /** Read back entry by entry: the i-th copy is in the table under its
      source, named with i + 1, and no path is copied twice. */
  lemma {:induction false} JournalEntries(copies: seq<Copy>)
    requires Numbered(copies)
    ensures forall i :: 0 <= i < |copies| ==>
      && copies[i].source in TableOf(copies)
      && TableOf(copies)[copies[i].source] == copies[i].target
      && copies[i].target == TargetName(copies[i].source, i + 1)
    ensures forall i, j :: 0 <= i < j < |copies| ==> copies[i].source != copies[j].source
    decreases |copies|
  {
    if copies != [] {
      var init := copies[..|copies| - 1];
      JournalEntries(init);
      forall i | 0 <= i < |copies| - 1
        ensures copies[i] == init[i]
      {
      }
    }
  }

  /** No two copies in a numbered log have the same name. */
  lemma JournalTargetsDistinct(copies: seq<Copy>)
    requires Numbered(copies)
    ensures forall i, j :: 0 <= i < j < |copies| ==> copies[i].target != copies[j].target
  {
    forall i, j | 0 <= i < j < |copies|
      ensures copies[i].target != copies[j].target
    {
      NumberedTarget(copies, i);
      NumberedTarget(copies, j);
      NumberedNamesDiffer(copies[i], copies[j], i + 1, j + 1);
    }
  }

  /** The i-th copy of a numbered log is named with i + 1. */
  lemma NumberedTarget(copies: seq<Copy>, i: nat)
    requires Numbered(copies) && i < |copies|
    ensures copies[i].target == TargetName(copies[i].source, i + 1)
  {
    JournalEntries(copies);
  }

  /** Copies named with different numbers have different names. */
  lemma NumberedNamesDiffer(a: Copy, b: Copy, i: nat, j: nat)
    requires a.target == TargetName(a.source, i) && b.target == TargetName(b.source, j) && i != j
    ensures a.target != b.target
  {
    TargetNameInjective(a.source, b.source, i, j);
  }

  /** Entering a new path under the next number keeps the journal. */
  lemma JournalAppend(path: string, target: string, table: map<string, string>, copies: seq<Copy>)
    requires Journal(table, copies) && path !in table && target == TargetName(path, |table| + 1)
    ensures Journal(table[path := target], copies + [Copy(path, target)])
  {
    JournalSize(copies);
    assert (copies + [Copy(path, target)])[..|copies|] == copies;
  }

  /** One match keeps the journal. */
  lemma RegisterKeepsJournal(path: string, table: map<string, string>, copies: seq<Copy>, isFile: string -> bool)
    requires Journal(table, copies)
    ensures Journal(Register(path, table, isFile).table, copies + Register(path, table, isFile).copies)
  {
    if path !in table && isFile(path) {
      JournalAppend(path, TargetName(path, |table| + 1), table, copies);
    } else {
      assert copies + [] == copies;
    }
  }

  lemma ConcatAssociative<T>(a: seq<T>, b: seq<T>, c: seq<T>)
    ensures (a + b) + c == a + (b + c)
  {
  }

  /** The loop over a line's matches keeps the journal. */
  lemma {:induction false} RegisterAllKeepsJournal(ls: seq<Link>, table: map<string, string>,
                                                 copies: seq<Copy>, isFile: string -> bool)
    requires Journal(table, copies)
    ensures Journal(RegisterAll(ls, table, isFile).table, copies + RegisterAll(ls, table, isFile).copies)
    decreases |ls|
  {
    if ls != [] {
      var first := Register(ls[0].path, table, isFile);
      var rest := RegisterAll(ls[1..], first.table, isFile);
      RegisterKeepsJournal(ls[0].path, table, copies, isFile);
      RegisterAllKeepsJournal(ls[1..], first.table, copies + first.copies, isFile);
      ConcatAssociative(copies, first.copies, rest.copies);
    } else {
      assert copies + [] == copies;
    }
  }

  /** Relocation of a line keeps the journal. */
  lemma RelocationKeepsJournal(ls: seq<Link>, line: string, table: map<string, string>,
                               copies: seq<Copy>, isFile: string -> bool)
    requires Journal(table, copies)
    ensures Journal(RelocateLinks(ls, line, table, isFile).table, copies + RelocateLinks(ls, line, table, isFile).copies)
  {
    RelocateLinksRegisters(ls, line, table, isFile);
    RegisterAllKeepsJournal(ls, table, copies, isFile);
  }

  /** Every copy in `copies` is of a path that was not in `table`, that
      resolves to an existing file and that is in `final`. */
  predicate FreshCopies(copies: seq<Copy>, table: map<string, string>, isFile: string -> bool,
                        final: map<string, string>) {
    forall i :: 0 <= i < |copies| ==>
      copies[i].source !in table && isFile(copies[i].source) && copies[i].source in final
  }

  /** Fresh copies followed by copies fresh for a larger table are fresh. */
  lemma FreshCopiesConcat(a: seq<Copy>, b: seq<Copy>, table: map<string, string>, table': map<string, string>,
                          isFile: string -> bool, final: map<string, string>)
    requires FreshCopies(a, table, isFile, final) && FreshCopies(b, table', isFile, final)
    requires forall k :: k in table ==> k in table'
    ensures FreshCopies(a + b, table, isFile, final)
  {
    forall i | 0 <= i < |a + b|
      ensures (a + b)[i].source !in table && isFile((a + b)[i].source) && (a + b)[i].source in final
    {
      if i >= |a| {
        assert (a + b)[i] == b[i - |a|];
      }
    }
  }

  /** The loop never changes or drops an entry of the table, and every copy
      it makes is of a path that was not yet in the table, that resolves to an
      existing file and that is in the final table. */
  lemma {:induction false} RegisterAllExtendsTable(ls: seq<Link>, table: map<string, string>, isFile: string -> bool)
    ensures var r := RegisterAll(ls, table, isFile);
      && (forall k :: k in table ==> k in r.table && r.table[k] == table[k])
      && FreshCopies(r.copies, table, isFile, r.table)
    decreases |ls|
  {
    if ls != [] {
      var first := Register(ls[0].path, table, isFile);
      var rest := RegisterAll(ls[1..], first.table, isFile);
      RegisterAllExtendsTable(ls[1..], first.table, isFile);
      assert FreshCopies(first.copies, table, isFile, rest.table) by {
        if first.copies != [] {
          assert ls[0].path in first.table;
        }
      }
      FreshCopiesConcat(first.copies, rest.copies, table, first.table, isFile, rest.table);
    }
  }

  /** Matches whose paths are all in the table leave the table as it is and
      copy nothing again. */
  lemma {:induction false} KnownPathsAreNotCopiedAgain(ls: seq<Link>, table: map<string, string>,
                                                     isFile: string -> bool)
    requires forall i :: 0 <= i < |ls| ==> ls[i].path in table
    ensures RegisterAll(ls, table, isFile) == Registry(table, [])
    decreases |ls|
  {
    if ls != [] {
      KnownPathsAreNotCopiedAgain(ls[1..], table, isFile);
    }
  }
}
