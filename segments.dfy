/**
 * What `MdParser.parseFile` makes of one file, stated without its loop: the
 * lines are cut into blocks at the delimiter lines `---`; the block before the
 * first delimiter is dropped, the block after it is the YAML header when a
 * second delimiter closes it, every later closed block is a slide, and the
 * block after the last delimiter is a slide when it holds anything but
 * whitespace. Every line that is not a delimiter goes through the asset
 * relocation first, in file order, with the table threaded through.
 */
module Segments {
  import opened Wrappers
  import opened Strings
  import opened Placeholders
  import opened Assets

  /** The lines the pattern `^\-{3}\r?\n$` matches with `re.match`. Python's
      `$` also matches in front of a final "\n", hence the two longer forms. */
  predicate IsDelimiter(l: string) {
    l == "---\n" || l == "---\r\n" || l == "---\n\n" || l == "---\r\n\n"
  }

  /** On a line as `readline` returns it, only the two plain forms match. */
  lemma DelimiterLine(l: string)
    requires IsLine(l)
    ensures IsDelimiter(l) <==> l == "---\n" || l == "---\r\n"
  {
    assert !IsLine("---\n\n") by { assert "---\n\n"[3] == '\n'; }
    assert !IsLine("---\r\n\n") by { assert "---\r\n\n"[4] == '\n'; }
  }

  /** The number of delimiter lines. */
  function DelimiterCount(lines: seq<string>): nat
    decreases |lines|
  {
    if lines == [] then 0
    else DelimiterCount(lines[..|lines| - 1]) + (if IsDelimiter(lines[|lines| - 1]) then 1 else 0)
  }

  /** The lines after relocation, with the table and the copies made. */
  datatype Rewrite = Rewrite(texts: seq<string>, table: map<string, string>, copies: seq<Copy>)

  /** `checkForExternalFile` applied to every line that is not a delimiter,
      in order; a delimiter line is kept as it is and never inspected. */
  function RelocateAll(lines: seq<string>, skip: bool, table: map<string, string>, isFile: string -> bool): (r: Rewrite)
    ensures |r.texts| == |lines|
    decreases |lines|
  {
    if lines == [] then Rewrite([], table, [])
    else
      var pre := RelocateAll(lines[..|lines| - 1], skip, table, isFile);
      var last := lines[|lines| - 1];
      if IsDelimiter(last) then Rewrite(pre.texts + [last], pre.table, pre.copies)
      else
        var r := RelocateLine(skip, pre.table, isFile, last);
        Rewrite(pre.texts + [r.line], r.table, pre.copies + r.copies)
  }

  /** The blocks between delimiters: the (rewritten) text of the non-delimiter
      lines, one block more than there are delimiters. */
  function Blocks(lines: seq<string>, texts: seq<string>): (bs: seq<string>)
    requires |texts| == |lines|
    ensures |bs| == DelimiterCount(lines) + 1
    decreases |lines|
  {
    if lines == [] then [""]
    else
      var pre := Blocks(lines[..|lines| - 1], texts[..|lines| - 1]);
      if IsDelimiter(lines[|lines| - 1]) then pre + [""]
      else pre[..|pre| - 1] + [pre[|pre| - 1] + texts[|lines| - 1]]
  }

  /** The text of the non-delimiter lines, in order. */
  function Body(lines: seq<string>, texts: seq<string>): string
    requires |texts| == |lines|
    decreases |lines|
  {
    if lines == [] then ""
    else
      Body(lines[..|lines| - 1], texts[..|lines| - 1])
      + (if IsDelimiter(lines[|lines| - 1]) then "" else texts[|lines| - 1])
  }

  /** Cutting at the delimiters loses nothing and adds nothing: the blocks
      together are exactly the text of the non-delimiter lines. */
  lemma {:induction false} BlocksCoverBody(lines: seq<string>, texts: seq<string>)
    requires |texts| == |lines|
    ensures Concat(Blocks(lines, texts)) == Body(lines, texts)
    decreases |lines|
  {
    if lines != [] {
      var n := |lines| - 1;
      var pre := Blocks(lines[..n], texts[..n]);
      BlocksCoverBody(lines[..n], texts[..n]);
      var init := pre[..|pre| - 1];
      assert pre == init + [pre[|pre| - 1]];
      ConcatAppend(init, pre[|pre| - 1]);
      if IsDelimiter(lines[n]) {
        ConcatAppend(pre, "");
      } else {
        ConcatAppend(init, pre[|pre| - 1] + texts[n]);
      }
    }
  }

  /** The test that keeps the last block: something is left after removing
      "\r" and "\n" and stripping whitespace. */
  predicate HasContent(item: string) {
    |Strip(RemoveChar(RemoveChar(item, '\r'), '\n'))| > 0
  }

  /** The last block is kept exactly when it holds a non-whitespace character. */
  lemma HasContentIff(item: string)
    ensures HasContent(item) <==> exists i :: 0 <= i < |item| && !IsSpace(item[i])
  {
    assert IsSpace('\r') && IsSpace('\n');
  }

  /** The slides contributed by the closed blocks (each followed by a
      delimiter): the header block only when YAML rejects it, then every
      later block. The block before the first delimiter contributes nothing. */
  function ClosedSlides(closed: seq<string>, yaml: string -> Option<Metadata>): seq<string> {
    (if |closed| >= 2 && yaml(closed[1]).None? then [closed[1]] else [])
    + (if |closed| >= 3 then closed[2..] else [])
  }

  /** Closing one more block appends at most that block. */
  lemma ClosedSlidesStep(closed: seq<string>, b: string, yaml: string -> Option<Metadata>)
    ensures ClosedSlides(closed + [b], yaml) ==
      ClosedSlides(closed, yaml)
      + (if |closed| == 1 && yaml(b).None? then [b]
         else if |closed| >= 2 then [b]
         else [])
  {
    var c := closed + [b];
    if |closed| >= 2 {
      assert c[1] == closed[1];
      assert c[2..] == (if |closed| >= 3 then closed[2..] else []) + [b];
    } else if |closed| == 1 {
      assert c[1] == b;
    }
  }

  /** All slides of one file: the closed slides, then the last block when it
      has content. */
  function FileSlides(bs: seq<string>, yaml: string -> Option<Metadata>): seq<string>
    requires bs != []
  {
    ClosedSlides(bs[..|bs| - 1], yaml) + (if HasContent(bs[|bs| - 1]) then [bs[|bs| - 1]] else [])
  }

  /** The metadata once some blocks are closed: what YAML made of the header
      block (the second one) when it is closed and YAML accepted it;
      otherwise unchanged. */
  function Header(closed: seq<string>, yaml: string -> Option<Metadata>, properties: Metadata): Metadata {
    if |closed| >= 2 && yaml(closed[1]).Some? then yaml(closed[1]).value else properties
  }

  /** The state `parseFile` works on: the slides, the metadata, the table of
      external files and the copies made so far. */
  datatype Parse = Parse(slides: seq<string>, properties: Metadata, table: map<string, string>, copies: seq<Copy>)

  /** The state after `parseFile` on a file with the given lines. */
  function ParsedFile(p: Parse, lines: seq<string>, skip: bool, isFile: string -> bool,
                      yaml: string -> Option<Metadata>): Parse
  {
    var r := RelocateAll(lines, skip, p.table, isFile);
    var bs := Blocks(lines, r.texts);
    Parse(p.slides + FileSlides(bs, yaml), Header(bs[..|bs| - 1], yaml, p.properties), r.table, p.copies + r.copies)
  }

  /** Relocating all lines keeps the journal of copies. */
  lemma {:induction false} RelocateAllKeepsJournal(lines: seq<string>, skip: bool, table: map<string, string>,
                                                 copies: seq<Copy>, isFile: string -> bool)
    requires Journal(table, copies)
    ensures Journal(RelocateAll(lines, skip, table, isFile).table, copies + RelocateAll(lines, skip, table, isFile).copies)
    decreases |lines|
  {
    if lines != [] {
      var pre := RelocateAll(lines[..|lines| - 1], skip, table, isFile);
      var last := lines[|lines| - 1];
      RelocateAllKeepsJournal(lines[..|lines| - 1], skip, table, copies, isFile);
      if !IsDelimiter(last) {
        var r := RelocateLine(skip, pre.table, isFile, last);
        if skip {
          assert (copies + pre.copies) + r.copies == copies + pre.copies;
        } else {
          RelocationKeepsJournal(Links(last), last, pre.table, copies + pre.copies, isFile);
        }
        ConcatAssociative(copies, pre.copies, r.copies);
      }
    } else {
      assert copies + [] == copies;
    }
  }

  /** With copying switched off every line stays as it is and nothing is
      copied. */
  lemma {:induction false} SkipKeepsLines(lines: seq<string>, table: map<string, string>, isFile: string -> bool)
    ensures RelocateAll(lines, true, table, isFile) == Rewrite(lines, table, [])
    decreases |lines|
  {
    if lines != [] {
      SkipKeepsLines(lines[..|lines| - 1], table, isFile);
      assert lines[..|lines| - 1] + [lines[|lines| - 1]] == lines;
    }
  }

  /** `parseFile` keeps the journal of copies. */
  lemma ParsedFileKeepsJournal(p: Parse, lines: seq<string>, skip: bool, isFile: string -> bool,
                               yaml: string -> Option<Metadata>)
    requires Journal(p.table, p.copies)
    ensures Journal(ParsedFile(p, lines, skip, isFile, yaml).table, ParsedFile(p, lines, skip, isFile, yaml).copies)
  {
    RelocateAllKeepsJournal(lines, skip, p.table, p.copies, isFile);
  }

  /** A file with fewer than two delimiter lines leaves the metadata alone and
      adds at most one slide, its last block. */
  lemma FewDelimiters(p: Parse, lines: seq<string>, skip: bool, isFile: string -> bool,
                      yaml: string -> Option<Metadata>)
    requires DelimiterCount(lines) < 2
    ensures ParsedFile(p, lines, skip, isFile, yaml).properties == p.properties
    ensures |ParsedFile(p, lines, skip, isFile, yaml).slides| <= |p.slides| + 1
  {
  }

  /** The slides of the earlier files stay in front, and a file adds one slide
      per closed block after the header, one more for a header YAML rejects,
      and one for a last block with content. */
  lemma ParsedFileAppends(p: Parse, lines: seq<string>, skip: bool, isFile: string -> bool,
                          yaml: string -> Option<Metadata>)
    ensures var q := ParsedFile(p, lines, skip, isFile, yaml);
      var d := DelimiterCount(lines);
      var bs := Blocks(lines, RelocateAll(lines, skip, p.table, isFile).texts);
      && p.slides <= q.slides
      && |q.slides| == |p.slides|
           + (if d >= 3 then d - 2 else 0)
           + (if d >= 2 && yaml(bs[1]).None? then 1 else 0)
           + (if HasContent(bs[d]) then 1 else 0)
  {
  }

  /** The header's own text never becomes a slide when YAML accepts it: the
      slides of the file are the later closed blocks and the last block. */
  lemma AcceptedHeaderIsNotASlide(bs: seq<string>, yaml: string -> Option<Metadata>)
    requires |bs| >= 3 && yaml(bs[1]).Some?
    ensures FileSlides(bs, yaml) ==
      bs[2..|bs| - 1] + (if HasContent(bs[|bs| - 1]) then [bs[|bs| - 1]] else [])
  {
  }

  /** The state after each file in turn, each given by its name and its
      lines; the metadata is overwritten by every file whose header YAML
      accepts, and the table and the copies carry over. Whether a path is a
      file depends on the directory of the file it is referenced from. */
  function ParsedFiles(p: Parse, files: seq<(string, seq<string>)>, skip: bool,
                       isFile: string -> string -> bool, yaml: string -> Option<Metadata>): Parse
    decreases |files|
  {
    if files == [] then p
    else
      var n := |files| - 1;
      ParsedFile(ParsedFiles(p, files[..n], skip, isFile, yaml), files[n].1, skip, isFile(files[n].0), yaml)
  }

  /** One more file is parsed from the state the earlier files left. */
  lemma ParsedFilesSnoc(p: Parse, files: seq<(string, seq<string>)>, f: (string, seq<string>), skip: bool,
                        isFile: string -> string -> bool, yaml: string -> Option<Metadata>)
    ensures ParsedFiles(p, files + [f], skip, isFile, yaml) ==
      ParsedFile(ParsedFiles(p, files, skip, isFile, yaml), f.1, skip, isFile(f.0), yaml)
  {
    assert (files + [f])[..|files|] == files;
  }

  /** The whole run keeps the journal of copies. */
  lemma {:induction false} ParsedFilesKeepJournal(p: Parse, files: seq<(string, seq<string>)>, skip: bool,
                                                isFile: string -> string -> bool, yaml: string -> Option<Metadata>)
    requires Journal(p.table, p.copies)
    ensures Journal(ParsedFiles(p, files, skip, isFile, yaml).table, ParsedFiles(p, files, skip, isFile, yaml).copies)
    decreases |files|
  {
    if files != [] {
      var n := |files| - 1;
      ParsedFilesKeepJournal(p, files[..n], skip, isFile, yaml);
      ParsedFileKeepsJournal(ParsedFiles(p, files[..n], skip, isFile, yaml), files[n].1, skip, isFile(files[n].0), yaml);
    }
  }

  /** The first file's slides come first: each file's state extends the
      slides of the files before it. */
  lemma {:induction false} ParsedFilesAppend(p: Parse, files: seq<(string, seq<string>)>, skip: bool,
                                           isFile: string -> string -> bool, yaml: string -> Option<Metadata>)
    ensures p.slides <= ParsedFiles(p, files, skip, isFile, yaml).slides
    decreases |files|
  {
    if files != [] {
      ParsedFilesAppend(p, files[..|files| - 1], skip, isFile, yaml);
    }
  }

  /** Metadata comes only from headers: files without a closed header leave
      the metadata of the files before them as it is. */
  lemma {:induction false} MetadataOnlyFromHeaders(p: Parse, files: seq<(string, seq<string>)>, skip: bool,
                                                 isFile: string -> string -> bool, yaml: string -> Option<Metadata>)
    requires forall i :: 0 <= i < |files| ==> DelimiterCount(files[i].1) < 2
    ensures ParsedFiles(p, files, skip, isFile, yaml).properties == p.properties
    decreases |files|
  {
    if files != [] {
      var n := |files| - 1;
      MetadataOnlyFromHeaders(p, files[..n], skip, isFile, yaml);
      FewDelimiters(ParsedFiles(p, files[..n], skip, isFile, yaml), files[n].1, skip, isFile(files[n].0), yaml);
    }
  }

  /** A later file with an accepted header overwrites the metadata of all
      earlier files. */
  lemma LaterHeaderOverwrites(p: Parse, files: seq<(string, seq<string>)>, skip: bool,
                              isFile: string -> string -> bool, yaml: string -> Option<Metadata>)
    requires files != []
    requires var last := files[|files| - 1].1;
      var bs := Blocks(last, RelocateAll(last, skip, ParsedFiles(p, files[..|files| - 1], skip, isFile, yaml).table,
                                        isFile(files[|files| - 1].0)).texts);
      |bs| >= 3 && yaml(bs[1]).Some?
    ensures var last := files[|files| - 1].1;
      var bs := Blocks(last, RelocateAll(last, skip, ParsedFiles(p, files[..|files| - 1], skip, isFile, yaml).table,
                                        isFile(files[|files| - 1].0)).texts);
      ParsedFiles(p, files, skip, isFile, yaml).properties == yaml(bs[1]).value
  {
  }

  /** One delimiter line more: a new, empty block; the table is untouched. */
  lemma RelocateAllDelimiter(lines: seq<string>, i: nat, skip: bool, table: map<string, string>, isFile: string -> bool)
    requires i < |lines| && IsDelimiter(lines[i])
    ensures var r, r' := RelocateAll(lines[..i], skip, table, isFile), RelocateAll(lines[..i + 1], skip, table, isFile);
      && r'.table == r.table && r'.copies == r.copies
      && DelimiterCount(lines[..i + 1]) == DelimiterCount(lines[..i]) + 1
      && Blocks(lines[..i + 1], r'.texts) == Blocks(lines[..i], r.texts) + [""]
  {
    assert lines[..i + 1][..i] == lines[..i];
    var r' := RelocateAll(lines[..i + 1], skip, table, isFile);
    assert r'.texts[..i] == RelocateAll(lines[..i], skip, table, isFile).texts;
  }

  /** One text line more: it is relocated with the table so far and appended
      to the open block. */
  lemma RelocateAllText(lines: seq<string>, i: nat, skip: bool, table: map<string, string>, isFile: string -> bool)
    requires i < |lines| && !IsDelimiter(lines[i])
    ensures var r, r' := RelocateAll(lines[..i], skip, table, isFile), RelocateAll(lines[..i + 1], skip, table, isFile);
      var x := RelocateLine(skip, r.table, isFile, lines[i]);
      var bs := Blocks(lines[..i], r.texts);
      && r'.table == x.table && r'.copies == r.copies + x.copies
      && DelimiterCount(lines[..i + 1]) == DelimiterCount(lines[..i])
      && Blocks(lines[..i + 1], r'.texts) == bs[..|bs| - 1] + [bs[|bs| - 1] + x.line]
  {
    assert lines[..i + 1][..i] == lines[..i];
    var r' := RelocateAll(lines[..i + 1], skip, table, isFile);
    assert r'.texts[..i] == RelocateAll(lines[..i], skip, table, isFile).texts;
  }

  /** Where the loop of `parseFile` stands after some lines: the number of
      delimiters seen, the open block, and the state. */
  datatype Scan = Scan(cnt: nat, item: string, p: Parse)

  /** The loop of `parseFile` line by line, starting from state `p`: a
      delimiter closes the open block (the second block is the header, which
      YAML may turn into the metadata; any other block after the first is a
      slide) and opens an empty one; a text line is relocated and appended to
      the open block. */
  function ScanOf(p: Parse, lines: seq<string>, skip: bool, isFile: string -> bool,
                  yaml: string -> Option<Metadata>): Scan
    decreases |lines|
  {
    if lines == [] then Scan(0, "", p)
    else
      var s := ScanOf(p, lines[..|lines| - 1], skip, isFile, yaml);
      var line := lines[|lines| - 1];
      if IsDelimiter(line) then
        Scan(s.cnt + 1, "",
             Parse(s.p.slides + (if (s.cnt == 1 && yaml(s.item).None?) || s.cnt > 1 then [s.item] else []),
                   if s.cnt == 1 && yaml(s.item).Some? then yaml(s.item).value else s.p.properties,
                   s.p.table, s.p.copies))
      else
        var x := RelocateLine(skip, s.p.table, isFile, line);
        Scan(s.cnt, s.item + x.line, Parse(s.p.slides, s.p.properties, x.table, s.p.copies + x.copies))
  }

  /** The same position described by the blocks. */
  function BlockScan(p: Parse, lines: seq<string>, skip: bool, isFile: string -> bool,
                     yaml: string -> Option<Metadata>): Scan
  {
    var r := RelocateAll(lines, skip, p.table, isFile);
    var bs := Blocks(lines, r.texts);
    var d := DelimiterCount(lines);
    Scan(d, bs[d], Parse(p.slides + ClosedSlides(bs[..d], yaml), Header(bs[..d], yaml, p.properties),
                         r.table, p.copies + r.copies))
  }

  /** A delimiter closes the block the block description has open. */
  lemma BlockScanDelimiter(p: Parse, lines: seq<string>, i: nat, skip: bool, isFile: string -> bool,
                           yaml: string -> Option<Metadata>)
    requires i < |lines| && IsDelimiter(lines[i])
    ensures var s := BlockScan(p, lines[..i], skip, isFile, yaml);
      BlockScan(p, lines[..i + 1], skip, isFile, yaml) ==
        Scan(s.cnt + 1, "",
             Parse(s.p.slides + (if (s.cnt == 1 && yaml(s.item).None?) || s.cnt > 1 then [s.item] else []),
                   if s.cnt == 1 && yaml(s.item).Some? then yaml(s.item).value else s.p.properties,
                   s.p.table, s.p.copies))
  {
    var r := RelocateAll(lines[..i], skip, p.table, isFile);
    var bs := Blocks(lines[..i], r.texts);
    RelocateAllDelimiter(lines, i, skip, p.table, isFile);
    CloseOpenBlock(bs, yaml, p.properties);
  }

  /** Closing the open (last) block of `bs` and opening an empty one. */
  lemma CloseOpenBlock(bs: seq<string>, yaml: string -> Option<Metadata>, properties: Metadata)
    requires bs != []
    ensures var d, bs' := |bs| - 1, bs + [""];
      && bs'[d + 1] == ""
      && ClosedSlides(bs'[..d + 1], yaml) ==
           ClosedSlides(bs[..d], yaml) + (if (d == 1 && yaml(bs[d]).None?) || d > 1 then [bs[d]] else [])
      && Header(bs'[..d + 1], yaml, properties) ==
           (if d == 1 && yaml(bs[d]).Some? then yaml(bs[d]).value else Header(bs[..d], yaml, properties))
  {
    var d := |bs| - 1;
    assert (bs + [""])[..d + 1] == bs[..d] + [bs[d]];
    ClosedSlidesStep(bs[..d], bs[d], yaml);
    assert d >= 2 ==> bs[1] == bs[..d][1];
  }

  /** A text line extends the block the block description has open. */
  lemma BlockScanText(p: Parse, lines: seq<string>, i: nat, skip: bool, isFile: string -> bool,
                      yaml: string -> Option<Metadata>)
    requires i < |lines| && !IsDelimiter(lines[i])
    ensures var s := BlockScan(p, lines[..i], skip, isFile, yaml);
      var x := RelocateLine(skip, s.p.table, isFile, lines[i]);
      BlockScan(p, lines[..i + 1], skip, isFile, yaml) ==
        Scan(s.cnt, s.item + x.line, Parse(s.p.slides, s.p.properties, x.table, s.p.copies + x.copies))
  {
    var r := RelocateAll(lines[..i], skip, p.table, isFile);
    var bs := Blocks(lines[..i], r.texts);
    var d := DelimiterCount(lines[..i]);
    var x := RelocateLine(skip, r.table, isFile, lines[i]);
    var r' := RelocateAll(lines[..i + 1], skip, p.table, isFile);
    var bs' := Blocks(lines[..i + 1], r'.texts);
    RelocateAllText(lines, i, skip, p.table, isFile);
    assert bs'[..d] == bs[..d];
    ConcatAssociative(p.copies, r.copies, x.copies);
  }

  /** The line-by-line loop and the block description agree after every
      prefix of the lines. */
  lemma {:induction false} ScanIsBlockScan(p: Parse, lines: seq<string>, skip: bool, isFile: string -> bool,
                                         yaml: string -> Option<Metadata>)
    ensures ScanOf(p, lines, skip, isFile, yaml) == BlockScan(p, lines, skip, isFile, yaml)
    decreases |lines|
  {
    if lines == [] {
      assert p.slides + [] == p.slides && p.copies + [] == p.copies;
    } else {
      var n := |lines| - 1;
      ScanIsBlockScan(p, lines[..n], skip, isFile, yaml);
      assert lines[..n + 1] == lines;
      if IsDelimiter(lines[n]) {
        BlockScanDelimiter(p, lines, n, skip, isFile, yaml);
      } else {
        BlockScanText(p, lines, n, skip, isFile, yaml);
      }
    }
  }

  /** One more line is one more step of the loop. */
  lemma ScanStep(p: Parse, lines: seq<string>, i: nat, skip: bool, isFile: string -> bool,
                 yaml: string -> Option<Metadata>)
    requires i < |lines|
    ensures var s := ScanOf(p, lines[..i], skip, isFile, yaml);
      ScanOf(p, lines[..i + 1], skip, isFile, yaml) ==
        if IsDelimiter(lines[i]) then
          Scan(s.cnt + 1, "",
               Parse(s.p.slides + (if (s.cnt == 1 && yaml(s.item).None?) || s.cnt > 1 then [s.item] else []),
                     if s.cnt == 1 && yaml(s.item).Some? then yaml(s.item).value else s.p.properties,
                     s.p.table, s.p.copies))
        else
          var x := RelocateLine(skip, s.p.table, isFile, lines[i]);
          Scan(s.cnt, s.item + x.line, Parse(s.p.slides, s.p.properties, x.table, s.p.copies + x.copies))
  {
    assert lines[..i + 1][..i] == lines[..i];
  }

  /** After the last line the open block is kept when it has content: that is
      the state the block description gives for the whole file. */
  lemma ScanEnd(p: Parse, lines: seq<string>, skip: bool, isFile: string -> bool, yaml: string -> Option<Metadata>)
    ensures var s := ScanOf(p, lines, skip, isFile, yaml);
      ParsedFile(p, lines, skip, isFile, yaml) ==
        Parse(s.p.slides + (if HasContent(s.item) then [s.item] else []), s.p.properties, s.p.table, s.p.copies)
  {
    ScanIsBlockScan(p, lines, skip, isFile, yaml);
  }
}
