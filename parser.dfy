/**
 * The class `MdParser` of makereveal.py: it collects the input files, parses
 * each into slides and metadata while relocating referenced files, and
 * finally fills a page template. The file system, the YAML parser and the
 * reading of files are parameters: `read` maps every file that can be opened
 * to its text, `isFile(f)(p)` says whether path `p`, taken
 * relative to the directory of input file `f`, is an existing file, and
 * `yaml` gives the metadata of a header (or nothing when it fails to parse).
 */
module Reveal {
  import opened Wrappers
  import opened Strings
  import opened Placeholders
  import opened Assets
  import opened Segments
  import opened Assembly

  /** The lines `readline` yields on a file opened in text mode. */
  function FileLines(text: string): (ls: seq<string>)
    ensures Concat(ls) == TranslateNewlines(text)
    ensures forall i :: 0 <= i < |ls| ==> IsLine(ls[i]) && '\r' !in ls[i]
    ensures forall i :: 0 <= i < |ls| - 1 ==> EndsInNewline(ls[i])
  {
    ReadLinesSplitsText(TranslateNewlines(text));
    ReadLinesWithoutCarriageReturn(TranslateNewlines(text));
    ReadLines(TranslateNewlines(text))
  }

  /** Every one of the files can be opened. */
  predicate Readable(names: seq<string>, read: map<string, string>) {
    forall i :: 0 <= i < |names| ==> names[i] in read
  }

  /** The input files with their lines, in the order they were added. */
  function Inputs(names: seq<string>, read: map<string, string>): (fs: seq<(string, seq<string>)>)
    requires Readable(names, read)
    ensures |fs| == |names|
    ensures forall i :: 0 <= i < |fs| ==> fs[i] == (names[i], FileLines(read[names[i]]))
    decreases |names|
  {
    if names == [] then []
    else
      var n := |names| - 1;
      Inputs(names[..n], read) + [(names[n], FileLines(read[names[n]]))]
  }

  /** The state after each input file: `trace[j + 1]` is what parsing file
      `names[j]` makes of `trace[j]`. */
  predicate Traced(trace: seq<Parse>, names: seq<string>, read: map<string, string>, skip: bool,
                   isFile: string -> string -> bool, yaml: string -> Option<Metadata>)
  {
    |trace| == |names| + 1 &&
    forall j :: 0 <= j < |names| ==>
      names[j] in read && trace[j + 1] == ParsedFile(trace[j], FileLines(read[names[j]]), skip, isFile(names[j]), yaml)
  }

  /** Parsing one more file extends the trace. */
  lemma TracedSnoc(trace: seq<Parse>, names: seq<string>, i: nat, read: map<string, string>, q: Parse, skip: bool,
                   isFile: string -> string -> bool, yaml: string -> Option<Metadata>)
    requires i < |names| && Traced(trace, names[..i], read, skip, isFile, yaml) && names[i] in read
    requires q == ParsedFile(trace[i], FileLines(read[names[i]]), skip, isFile(names[i]), yaml)
    ensures Traced(trace + [q], names[..i + 1], read, skip, isFile, yaml)
  {
    var t, ns := trace + [q], names[..i + 1];
    forall j | 0 <= j < i + 1
      ensures ns[j] in read && t[j + 1] == ParsedFile(t[j], FileLines(read[ns[j]]), skip, isFile(ns[j]), yaml)
    {
      if j < i {
        assert names[..i][j] == ns[j];
      }
    }
  }

  /** A trace of all files holds a trace of all but the last one. */
  lemma TracedPrefix(trace: seq<Parse>, names: seq<string>, read: map<string, string>, skip: bool,
                     isFile: string -> string -> bool, yaml: string -> Option<Metadata>)
    requires names != [] && Traced(trace, names, read, skip, isFile, yaml)
    ensures Traced(trace[..|names|], names[..|names| - 1], read, skip, isFile, yaml)
  {
    var n := |names| - 1;
    forall j | 0 <= j < n
      ensures names[..n][j] in read &&
        trace[..n + 1][j + 1] == ParsedFile(trace[..n + 1][j], FileLines(read[names[..n][j]]), skip,
                                            isFile(names[..n][j]), yaml)
    {
      assert names[..n][j] == names[j];
    }
  }

  /** A trace of the input files ends in the state the whole run describes. */
  lemma {:induction false} TraceIsParsedFiles(trace: seq<Parse>, names: seq<string>, read: map<string, string>,
                                            skip: bool, isFile: string -> string -> bool,
                                            yaml: string -> Option<Metadata>)
    requires Traced(trace, names, read, skip, isFile, yaml)
    ensures Readable(names, read)
    ensures trace[|names|] == ParsedFiles(trace[0], Inputs(names, read), skip, isFile, yaml)
    decreases |names|
  {
    if names != [] {
      var n := |names| - 1;
      TracedPrefix(trace, names, read, skip, isFile, yaml);
      TraceIsParsedFiles(trace[..n + 1], names[..n], read, skip, isFile, yaml);
      InputsSnoc(names, read);
    }
  }

  /** The inputs of all files are the inputs of all but the last, then the last. */
  lemma InputsSnoc(names: seq<string>, read: map<string, string>)
    requires names != [] && Readable(names, read)
    ensures Readable(names[..|names| - 1], read)
    ensures Inputs(names, read)[..|names| - 1] == Inputs(names[..|names| - 1], read)
  {
  }

  class MdParser {
    /** The input files, in the order they were added. */
    var files: seq<string>
    /** The metadata from the header of the markup. */
    var properties: Metadata
    /** The reveal.js theme name. */
    var theme: string
    /** Whether referenced files are left where they are. */
    var skipExtFiles: bool
    /** The slides found so far. */
    var slides: seq<string>
    /** The page once the template has been applied. */
    var html: string
    /** Each referenced file copied so far, mapped to its new name. */
    var externalFiles: map<string, string>
    /** The copies made so far, in order (the calls of `shutil.copy`). */
    var copies: seq<Copy>
    /** The input file being parsed. */
    var currentFileParsed: Option<string>

    /** The table of external files is exactly what the copies made record. */
    predicate Valid()
      reads this
    {
      Journal(externalFiles, copies)
    }

    /** The state `parseFile` works on. */
    function State(): Parse
      reads this
    {
      Parse(slides, properties, externalFiles, copies)
    }

    constructor()
      ensures files == [] && properties == Metadata([], None) && theme == "black"
      ensures !skipExtFiles && slides == [] && html == ""
      ensures externalFiles == map[] && copies == [] && currentFileParsed == None
      ensures Valid()
    {
      files := [];
      properties := Metadata([], None);
      theme := "black";
      skipExtFiles := false;
      slides := [];
      html := "";
      externalFiles := map[];
      copies := [];
      currentFileParsed := None;
    }

    /** `addFile(file)`. */
    method AddFile(file: string)
      modifies this
      ensures files == old(files) + [file]
      ensures properties == old(properties) && theme == old(theme) && skipExtFiles == old(skipExtFiles)
      ensures slides == old(slides) && html == old(html) && externalFiles == old(externalFiles)
      ensures copies == old(copies) && currentFileParsed == old(currentFileParsed)
    {
      files := files + [file];
    }

    /** `setTheme(theme)`. */
    method SetTheme(name: string)
      modifies this
      ensures theme == name
      ensures files == old(files) && properties == old(properties) && skipExtFiles == old(skipExtFiles)
      ensures slides == old(slides) && html == old(html) && externalFiles == old(externalFiles)
      ensures copies == old(copies) && currentFileParsed == old(currentFileParsed)
    {
      theme := name;
    }

    /** `setDisableExternalFiles()`. */
    method SetDisableExternalFiles()
      modifies this
      ensures skipExtFiles
      ensures files == old(files) && properties == old(properties) && theme == old(theme)
      ensures slides == old(slides) && html == old(html) && externalFiles == old(externalFiles)
      ensures copies == old(copies) && currentFileParsed == old(currentFileParsed)
    {
      skipExtFiles := true;
    }

    /** `checkForExternalFile(line)`: the matches are found once, in the
        original line; each rewrites the line as it stands. */
    method CheckForExternalFile(line: string, isFile: string -> bool) returns (out: string)
      requires Valid()
      modifies this
      ensures var r := RelocateLine(skipExtFiles, old(externalFiles), isFile, line);
        out == r.line && externalFiles == r.table && copies == old(copies) + r.copies
      ensures Valid()
      ensures files == old(files) && properties == old(properties) && theme == old(theme)
      ensures skipExtFiles == old(skipExtFiles) && slides == old(slides) && html == old(html)
      ensures currentFileParsed == old(currentFileParsed)
    {
      if skipExtFiles {
        assert copies + [] == copies;
        return line;
      }
      var ms := Links(line);
      out := line;
      var i := 0;
      while i < |ms|
        invariant 0 <= i <= |ms|
        invariant var r, whole := RelocateLinks(ms[i..], out, externalFiles, isFile),
                                  RelocateLinks(ms, line, old(externalFiles), isFile);
          r.line == whole.line && r.table == whole.table && copies + r.copies == old(copies) + whole.copies
        invariant files == old(files) && properties == old(properties) && theme == old(theme)
        invariant skipExtFiles == old(skipExtFiles) && slides == old(slides) && html == old(html)
        invariant currentFileParsed == old(currentFileParsed)
      {
        ghost var step := RelocateLink(ms[i], out, externalFiles, isFile);
        ghost var rest := RelocateLinks(ms[i + 1..], step.line, step.table, isFile);
        ghost var before := copies;
        assert ms[i..][1..] == ms[i + 1..];
        assert RelocateLinks(ms[i..], out, externalFiles, isFile) == Relocation(rest.line, rest.table, step.copies + rest.copies);
        out := RelocateMatch(ms[i], out, isFile);
        ConcatAssociative(before, step.copies, rest.copies);
        i := i + 1;
      }
      assert ms[|ms|..] == [];
      assert copies + [] == copies;
      RelocationKeepsJournal(ms, line, old(externalFiles), old(copies), isFile);
    }

    /** The body of the loop of `checkForExternalFile`, for one match. */
    method RelocateMatch(m: Link, line: string, isFile: string -> bool) returns (out: string)
      modifies this
      ensures var step := RelocateLink(m, line, old(externalFiles), isFile);
        out == step.line && externalFiles == step.table && copies == old(copies) + step.copies
      ensures files == old(files) && properties == old(properties) && theme == old(theme)
      ensures skipExtFiles == old(skipExtFiles) && slides == old(slides) && html == old(html)
      ensures currentFileParsed == old(currentFileParsed)
    {
      out := line;
      if m.path in externalFiles {
        out := Replace(out, m.path, externalFiles[m.path]);
        assert copies == copies + [];
      } else if isFile(m.path) {
        var target := TargetName(m.path, |externalFiles| + 1);
        externalFiles := externalFiles[m.path := target];
        copies := copies + [Copy(m.path, target)];
        var replacement := Replace(m.Text(), m.path, target);
        out := Replace(out, m.Text(), replacement);
      } else {
        assert copies == copies + [];
      }
    }

    /** What `parseFile` does with the open block at a delimiter: the second
        block is the YAML header, later blocks are slides. */
    method CloseBlock(cnt: nat, item: string, yaml: string -> Option<Metadata>)
      modifies this
      ensures slides == old(slides) + (if (cnt == 1 && yaml(item).None?) || cnt > 1 then [item] else [])
      ensures properties == if cnt == 1 && yaml(item).Some? then yaml(item).value else old(properties)
      ensures files == old(files) && theme == old(theme) && skipExtFiles == old(skipExtFiles)
      ensures html == old(html) && externalFiles == old(externalFiles) && copies == old(copies)
      ensures currentFileParsed == old(currentFileParsed)
    {
      if cnt == 1 {
        match yaml(item)
        case Some(m) =>
          properties := m;
        case None =>
          slides := slides + [item];
      } else if cnt > 1 {
        slides := slides + [item];
      }
    }

    /** The loop of `parseFile(fp)` over the given lines; the block still
        open after the last line is returned. */
    method ScanLines(lines: seq<string>, isFile: string -> bool, yaml: string -> Option<Metadata>)
      returns (item: string)
      requires Valid()
      modifies this
      ensures var s := ScanOf(old(State()), lines, skipExtFiles, isFile, yaml); item == s.item && State() == s.p
      ensures Valid()
      ensures files == old(files) && theme == old(theme) && skipExtFiles == old(skipExtFiles)
      ensures html == old(html) && currentFileParsed == old(currentFileParsed)
    {
      ghost var p := State();
      var cnt: nat := 0;
      item := "";
      var i := 0;
      while i < |lines|
        invariant 0 <= i <= |lines|
        invariant Scan(cnt, item, State()) == ScanOf(p, lines[..i], skipExtFiles, isFile, yaml)
        invariant Valid()
        invariant files == old(files) && theme == old(theme) && skipExtFiles == old(skipExtFiles)
        invariant html == old(html) && currentFileParsed == old(currentFileParsed)
      {
        var line := lines[i];
        ScanStep(p, lines, i, skipExtFiles, isFile, yaml);
        if IsDelimiter(line) {
          CloseBlock(cnt, item, yaml);
          cnt := cnt + 1;
          item := "";
          assert Scan(cnt, item, State()) == ScanOf(p, lines[..i + 1], skipExtFiles, isFile, yaml);
        } else {
          var text := CheckForExternalFile(line, isFile);
          item := item + text;
          assert Scan(cnt, item, State()) == ScanOf(p, lines[..i + 1], skipExtFiles, isFile, yaml);
        }
        i := i + 1;
      }
      assert lines[..|lines|] == lines;
    }

    /** `parseFile(fp)` on a file with the given lines. */
    method ParseFile(lines: seq<string>, isFile: string -> bool, yaml: string -> Option<Metadata>)
      requires Valid()
      modifies this
      ensures State() == ParsedFile(old(State()), lines, skipExtFiles, isFile, yaml)
      ensures Valid()
      ensures files == old(files) && theme == old(theme) && skipExtFiles == old(skipExtFiles)
      ensures html == old(html) && currentFileParsed == old(currentFileParsed)
    {
      ScanEnd(State(), lines, skipExtFiles, isFile, yaml);
      var item := ScanLines(lines, isFile, yaml);
      if HasContent(item) {
        slides := slides + [item];
      }
    }

    /** `applyTemplate(template)` on the template's text. */
    method ApplyTemplate(template: string)
      modifies this
      ensures html == Document(template, theme, properties, slides)
      ensures files == old(files) && properties == old(properties) && theme == old(theme)
      ensures skipExtFiles == old(skipExtFiles) && slides == old(slides)
      ensures externalFiles == old(externalFiles) && copies == old(copies)
      ensures currentFileParsed == old(currentFileParsed)
    {
      html := template;
      html := Replace(html, SlidesToken, Sentinel);
      html := Replace(html, ThemeToken, theme);
      html := ReplacePlaceholder(properties.fields, html);
      html := Replace(html, Sentinel, SlidesHtml(slides, properties));
    }

    /** `readFiles()`: every input file in turn, read in text mode and parsed.
        It fails when there is no input file or one of them cannot be opened. */
    method ReadFiles(read: map<string, string>, isFile: string -> string -> bool,
                     yaml: string -> Option<Metadata>) returns (ok: bool)
      requires Valid()
      modifies this
      ensures files == old(files) && theme == old(theme) && skipExtFiles == old(skipExtFiles) && html == old(html)
      ensures ok <==> files != [] && Readable(files, read)
      ensures ok ==> State() == ParsedFiles(old(State()), Inputs(files, read), skipExtFiles, isFile, yaml)
      ensures ok ==> currentFileParsed == Some(files[|files| - 1])
      ensures Valid()
    {
      if files == [] {
        return false;
      }
      ghost var trace;
      ok, trace := ParseInputs(read, isFile, yaml);
      if ok {
        TraceIsParsedFiles(trace, files, read, skipExtFiles, isFile, yaml);
      }
    }

    /** The loop of `readFiles()`: each file is opened and parsed in turn,
        until one cannot be opened. */
    method ParseInputs(read: map<string, string>, isFile: string -> string -> bool,
                       yaml: string -> Option<Metadata>) returns (ok: bool, ghost trace: seq<Parse>)
      requires Valid() && files != []
      modifies this
      ensures files == old(files) && theme == old(theme) && skipExtFiles == old(skipExtFiles) && html == old(html)
      ensures ok <==> Readable(files, read)
      ensures ok ==> Traced(trace, files, read, skipExtFiles, isFile, yaml)
      ensures ok ==> trace[0] == old(State()) && trace[|files|] == State()
      ensures ok ==> currentFileParsed == Some(files[|files| - 1])
      ensures Valid()
    {
      var names := files;
      trace := [State()];
      var i := 0;
      while i < |names|
        invariant 0 <= i <= |names|
        invariant Traced(trace, names[..i], read, skipExtFiles, isFile, yaml)
        invariant trace[0] == old(State()) && trace[i] == State()
        invariant i > 0 ==> currentFileParsed == Some(names[i - 1])
        invariant Valid()
        invariant files == names && theme == old(theme) && skipExtFiles == old(skipExtFiles) && html == old(html)
      {
        var more;
        ghost var next;
        more, next := ParseNext(names, i, read, isFile, yaml, trace);
        if !more {
          assert !Readable(files, read) by { assert files[i] !in read; }
          return false, trace;
        }
        trace := next;
        i := i + 1;
      }
      assert names[..i] == names;
      assert Readable(names, read);
      return true, trace;
    }

    /** One step of the loop of `readFiles()`: file `names[i]` is opened,
        made the current file and parsed; it fails when the file cannot be
        opened. */
    method ParseNext(names: seq<string>, i: nat, read: map<string, string>, isFile: string -> string -> bool,
                     yaml: string -> Option<Metadata>, ghost trace: seq<Parse>) returns (ok: bool, ghost next: seq<Parse>)
      requires Valid() && i < |names|
      requires Traced(trace, names[..i], read, skipExtFiles, isFile, yaml) && trace[i] == State()
      modifies this
      ensures files == old(files) && theme == old(theme) && skipExtFiles == old(skipExtFiles) && html == old(html)
      ensures ok <==> names[i] in read
      ensures ok ==> Traced(next, names[..i + 1], read, skipExtFiles, isFile, yaml)
      ensures ok ==> next[0] == trace[0] && next[i + 1] == State() && currentFileParsed == Some(names[i])
      ensures Valid()
    {
      var fname := names[i];
      if fname !in read {
        return false, trace;
      }
      currentFileParsed := Some(fname);
      var lines := FileLines(read[fname]);
      ParseFile(lines, isFile(fname), yaml);
      TracedSnoc(trace, names, i, read, State(), skipExtFiles, isFile, yaml);
      return true, trace + [State()];
    }
  }
}
