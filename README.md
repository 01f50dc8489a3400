# makereveal.py: the `MdParser` core in Dafny

makereveal.py turns one or more Markdown files into a single reveal.js page.
Its class `MdParser` does the work, and this project models it:

- it collects the input files, the theme and the "do not copy external files" switch;
- it reads every input file line by line;
- it cuts the lines into blocks at the delimiter lines `---`. The second block
  is the YAML header, which becomes the metadata, and the later blocks become slides;
- it rewrites every Markdown reference `[caption](path)` or
  `[caption](path "title")` whose path is an existing file. The reference then
  points to a numbered copy of the file (`img.png` becomes `img_1.png`), and a table
  "original path to new name" makes a second reference reuse the first copy;
- it fills a page template:
  - every slide is substituted with the mapping under the metadata key `template`
    and wrapped in a `<section data-markdown>`;
  - the template's `{{__theme__}}` takes the theme;
  - every `{{__key__}}` of the template takes the metadata value of `key`;
  - every placeholder left over is deleted;
  - `{{__slides__}}` takes the slides. It is parked behind a sentinel while
    the metadata is substituted.

  For a template made of any number of placeholders and of literal text in
  which neither a placeholder match nor the sentinel can start, the model
  proves the page to be the template with every placeholder resolved: the
  slides and the theme first, then the first metadata entry of its key,
  and nothing for the rest (`DocumentIsResolved`).

Modules:

- `Wrappers`: `Option`.
- `Strings`: the Python string and text-file primitives the class relies on.
  These are `str.replace`, `str.join`, `str.strip`, `str(n)`, the `\w` class,
  universal-newline translation and `readline`.
- `Placeholders`: `replacePlaceholder`. It covers literal replacement of
  `{{__key__}}` key by key, then deletion of every match of `\{\{__\w+__\}\}`.
- `Assets`: `checkForExternalFile`. It has three parts:
  - a scanner for the reference pattern and its `re.finditer`;
  - the naming of copies (`os.path.basename`, `os.path.splitext`, `str(n)`),
    where different numbers give different names (`TargetNameInjective`);
  - the table of external files, and the log of the copies made.
- `Segments`: what `parseFile` makes of one file, as a declarative reference
  (blocks between delimiters, relocation of every non-delimiter line), and the
  loop of `parseFile` as a function over the lines, proved equal to it. Also
  the run over several files (`ParsedFiles`).
- `Templates`: texts as literal pieces and placeholders, and what the
  literal-replacement pass and the deletion pass make of them, proved piece
  by piece against a reference `Resolve`.
- `Assembly`: `getSlidesHtml` and `applyTemplate` as functions, and what the
  assembled page is for every template of literal pieces and placeholders.
- `Reveal`: the class `MdParser` itself. Its fields are the fields of the
  Python object. Its methods, with their loops, are proved against the
  functions of the other modules.

The environment of the program is made of parameters:

- `read: map<string, string>` maps every file that can be opened to its text;
- `isFile(f)(p)` says whether path `p`, taken relative to the directory of
  input file `f`, is an existing file. Inside one file this is `isFile: string -> bool`;
- `yaml: string -> Option<Metadata>` is the YAML parser. It returns nothing
  when `yaml.safe_load` raises. A mapping is a list of key and value pairs in
  the dict's order. A dict has distinct keys (`DistinctKeys`), and then every
  entry is its key's first (`LookupDistinct`). The model does not impose this
  on `yaml`: every lemma that needs it says so, and the others hold for any
  list of pairs;
- `shutil.copy` is recorded as an entry `Copy(source, target)` of the log `copies`.

The class invariant `Valid()` ties `externalFiles` to that log. The table maps
exactly the copied paths to their names. The i-th copy, counting from 1,
carries the number i, no path is copied twice, and no two copies share a
name (`JournalTargetsDistinct`).

Where the code and its documentation differ, the model follows the code:

- The metadata is replaced, not merged, by every file whose header YAML
  accepts. A later file's header wins, and a file without a header keeps the
  metadata before it (`LaterHeaderOverwrites`, `MetadataOnlyFromHeaders`).
- The deletion pass does not guarantee that no placeholder survives.
  `DeletionCanCreatePlaceholder` shows a text where deleting one placeholder
  joins two halves into a new one.
- The references of a line are found once, in the original line. Each one then
  rewrites the line as it stands, with `str.replace` over the whole line.

## Model

| member | source | states |
|---|---|---|
| Strings.Replace | makereveal.py:262 | Python's `str.replace`: scanning from the left, each occurrence of the pattern is replaced and scanning resumes right after it; an empty pattern puts the replacement before every character and at the end |
| Strings.ReplaceAbsent | makereveal.py:262 | `str.replace` leaves text without an occurrence of the pattern unchanged |
| Strings.ReplaceAfterPrefix | makereveal.py:307-316 | a prefix without the pattern's first character is kept and does not change how the rest is replaced |
| Strings.ReplaceWithoutFirstChar | makereveal.py:307-316 | text without the pattern's first character is unchanged by `str.replace` |
| Strings.ReplaceSingle | makereveal.py:307-316 | a single occurrence, framed by text without the pattern's first character, is replaced and nothing else changes |
| Strings.ReplaceSkip | makereveal.py:262 | a prefix at none of whose positions the pattern starts is kept, and the rest is replaced on its own |
| Strings.ReplaceAtFront | makereveal.py:262 | an occurrence at the front is replaced and scanning resumes right after it |
| Strings.Join | makereveal.py:283 | Python's `sep.join(parts)`: the parts in order with `sep` between each two of them, and the empty text for no parts |
| Strings.ConcatAppend | makereveal.py:199 | concatenating one more part appends it to the concatenation |
| Strings.IsSpace | makereveal.py:201 | the characters for which `str.isspace()` is true, which `strip()` removes: `\t` to `\r`, `\x1c` to space, `\x85`, `\xa0` and the Unicode spaces and separators |
| Strings.AllSpaceCons | makereveal.py:201 | a text is all whitespace exactly when its first character and its rest are |
| Strings.StripLeading | makereveal.py:201 | `lstrip` is empty exactly for whitespace-only text, and otherwise starts with a non-space character |
| Strings.StripTrailing | makereveal.py:201 | `rstrip` is a prefix of the text, empty exactly for whitespace-only text |
| Strings.Strip | makereveal.py:201 | `strip()` is empty exactly when the text is whitespace only |
| Strings.RemoveChar | makereveal.py:201 | `replace(c, '')` leaves no `c`; removing a whitespace character does not change whether the text is all whitespace |
| Strings.NatToString | makereveal.py:233 | `str(n)` is a non-empty run of decimal digits |
| Strings.NatToStringRoundTrip | makereveal.py:233 | `str(n)` reads back as `n`, so distinct numbers give distinct number strings (`Assets.TargetNameInjective` carries this to whole names) |
| Strings.TranslateNewlines | makereveal.py:165 | a file opened in text mode yields no `\r` |
| Strings.ReadLines | makereveal.py:186 | the successive results of `readline` up to the first empty one: each line runs up to and including the next `\n`, and the last one to the end of the text |
| Strings.ReadLinesSplitsText | makereveal.py:186 | the lines `readline` yields concatenate to the text, each line holds a `\n` only at its end, and every line but the last ends in `\n` |
| Strings.ReadLinesConcat | makereveal.py:186 | the lines concatenate to the text |
| Strings.ReadLinesAreLines | makereveal.py:186 | every line is non-empty and holds a `\n` only at its end |
| Strings.ReadLinesEndInNewline | makereveal.py:186 | every line but the last ends in `\n` |
| Strings.ReadLinesWithoutCarriageReturn | makereveal.py:186 | lines read from translated text hold no `\r` |
| Placeholders.TokenIsMatch | makereveal.py:262-264 | the placeholder `{{__key__}}` is a match of the deletion pattern exactly when the key is a word |
| Placeholders.TokenLayout | makereveal.py:262 | the position of each character of a placeholder |
| Placeholders.TokenNotPrefix | makereveal.py:262 | the placeholder of one word key never starts where the placeholder of a different word key stands |
| Placeholders.ReplaceAtOtherToken | makereveal.py:262 | replacing one key's placeholder leaves a different key's placeholder that starts the text unchanged |
| Placeholders.TokenTailBraceSafe | makereveal.py:262 | a placeholder without its first `{` holds no `{{` and does not end in `{` |
| Placeholders.BraceSafeNoPattern | makereveal.py:262 | no pattern beginning with `{{` starts inside text without `{{` that does not end in `{` |
| Placeholders.BraceSafeReplace | makereveal.py:262 | such text is kept by the literal replacement of a placeholder, and the rest is replaced on its own |
| Placeholders.ReplaceTokenOther | makereveal.py:262 | replacing one word key's placeholder keeps the placeholder of another word key at the front, whatever follows |
| Placeholders.ReplaceOtherToken | makereveal.py:262 | replacing one key's placeholder leaves the placeholder of a different word key, framed by text without `{`, as it is |
| Placeholders.WordRun | makereveal.py:264 | the number of leading word characters: all of them are word characters, and the next one is not |
| Placeholders.TokenLength | makereveal.py:264 | a match found at the front is at least 9 characters long and fits in the text |
| Placeholders.TokenLengthIff | makereveal.py:264 | the scanner finds a match of length `n` at the front exactly when the first `n` characters are a match of `\{\{__\w+__\}\}` |
| Placeholders.StripTokens | makereveal.py:264 | `re.sub` of the pattern with `''` never lengthens the text |
| Placeholders.NoTokenTail | makereveal.py:264 | a text without a match has a tail without a match |
| Placeholders.TokenShortens | makereveal.py:264 | a match anywhere in the text makes the deletion pass shorten it |
| Placeholders.NoTokenIsFixpoint | makereveal.py:264 | a text without a match is its own deletion result |
| Placeholders.StripTokensFixpointIff | makereveal.py:264 | the deletion pass leaves a text unchanged exactly when it holds no match |
| Placeholders.StripTokensAfterPrefix | makereveal.py:264 | the deletion pass keeps a prefix without `{` and treats the rest on its own |
| Placeholders.BraceSafeStrip | makereveal.py:264 | text without `{{` that does not end in `{` is kept by the deletion pass, and the rest is treated on its own |
| Placeholders.NoMatchWithoutOpening | makereveal.py:264 | no match starts where the text does not begin with `{{` |
| Placeholders.StripTokensKeepsFirst | makereveal.py:264 | where no match starts, the first character is kept |
| Placeholders.BraceKept | makereveal.py:264 | a `{` at which no match starts is kept |
| Placeholders.NoMatchAtOpening | makereveal.py:264 | no match starts at `{{__` not followed by a word character |
| Placeholders.OpeningKept | makereveal.py:264 | the first `{` of such an opening is kept |
| Placeholders.SecondBraceKept | makereveal.py:264 | a `{` followed by `__` is kept |
| Placeholders.StripTokensUnmatchedOpening | makereveal.py:264 | an opening `{{__` not followed by a word character survives the deletion pass |
| Placeholders.StripTokensLeadingPlaceholder | makereveal.py:264 | a placeholder of a word key at the front is deleted, and scanning resumes after it |
| Placeholders.InnerPlaceholderDeleted | makereveal.py:264 | in `{{__w__}}w__}}` only the placeholder is deleted |
| Placeholders.WordTailWithoutBrace | makereveal.py:264 | a word followed by `__}}` holds no `{` |
| Placeholders.DeletionCanCreatePlaceholder | makereveal.py:263-264 | deleting the unmatched placeholders once can leave a placeholder: `{{__{{__w__}}w__}}` becomes `{{__w__}}` |
| Placeholders.StripTokensOuter | makereveal.py:264 | the opening in front of a deleted inner placeholder is kept |
| Placeholders.ReplaceKeys | makereveal.py:261-262 | the loop over the keys: for each entry in order, every `{{__key__}}` of the text as it stands is replaced by the entry's value |
| Placeholders.Substitute | makereveal.py:248-266 | what `replacePlaceholder(m, text)` returns: the loop over the keys, then the deletion of every match of `\{\{__\w+__\}\}` |
| Placeholders.ReplacePlaceholder | makereveal.py:248-266 | the method returns the keys' literal replacement, in the mapping's order, followed by the deletion pass |
| Placeholders.NoTokenExcludesKey | makereveal.py:262 | a text without a match holds no placeholder of a word key |
| Placeholders.SubstituteResolvedText | makereveal.py:248-266 | substituting a text that holds no match, with word keys, changes nothing, so substitution is idempotent on resolved text |
| Placeholders.ReplaceKeysWithoutBrace | makereveal.py:261-262 | literal replacement leaves a text without `{` alone, whatever the keys |
| Placeholders.SubstituteWithoutBrace | makereveal.py:248-266 | `replacePlaceholder` leaves a text without `{` alone |
| Placeholders.SubstituteUnknownKey | makereveal.py:261-264 | a word key's placeholder that no key of the mapping names survives the literal pass and is then deleted |
| Placeholders.SubstituteFirstKey | makereveal.py:261-264 | the first key's placeholder takes its value |
| Placeholders.SubstituteKeyAt | makereveal.py:261-264 | the placeholder of any key takes the value of the key's first entry, when the earlier keys are other words |
| Templates.Lookup | makereveal.py:261-262 | the value of the first entry with the key, or none |
| Templates.Resolve | makereveal.py:248-266 | the reference result of `replacePlaceholder` on a text of pieces: each placeholder becomes its key's `Lookup` value, or nothing when no entry has its key, and literal text is kept |
| Templates.LookupAt | makereveal.py:261-262 | the first entry with a key gives that key's value |
| Templates.LookupDistinct | makereveal.py:261-262 | with distinct keys, as in a dict, every entry gives its key's value |
| Templates.LookupNone | makereveal.py:261-262 | a key has no value exactly when no entry has it |
| Templates.LookupIsEntry | makereveal.py:261-262 | a key's value is the value of one of its entries |
| Templates.PutAllLookup | makereveal.py:261-262 | after the pass over the keys, a key replaced before keeps its value, and any other key has the value of its first entry, or none |
| Templates.ShowPieceReplace | makereveal.py:262 | one piece under one literal replacement: its placeholder is replaced exactly when it has that key and is still in place |
| Templates.ShowReplace | makereveal.py:262 | one literal replacement replaces exactly the placeholders of its key still in place, across the whole text |
| Templates.ShowReplaceKeys | makereveal.py:261-262 | the loop over the keys replaces every key's placeholders with the value of its first entry |
| Templates.ShowPieceStrip | makereveal.py:264 | one piece under the deletion pass: a placeholder still in place is deleted, everything else is kept |
| Templates.ShowStrip | makereveal.py:264 | the deletion pass removes exactly the placeholders still in place |
| Templates.PutAllSafe | makereveal.py:261-262 | values that cannot start a match stay so through the pass over the keys |
| Templates.ShowSubstitute | makereveal.py:248-266 | `replacePlaceholder` on pieces is the pass over the keys followed by the deletion of the placeholders left |
| Templates.EraseIsResolve | makereveal.py:248-266 | erasing with the values the pass left is resolving with the mapping |
| Templates.SubstituteIsResolve | makereveal.py:248-266 | on text of literal pieces and word-key placeholders, `replacePlaceholder` gives every placeholder the value of its key's first entry and deletes the others |
| Templates.ResolveConcat | makereveal.py:248-266 | resolving distributes over concatenation |
| Templates.ResolveAround | makereveal.py:248-266 | resolving a template around one placeholder gives it its key's value, or nothing |
| Assets.LinkAt | makereveal.py:218 | the match of `\[[^\]]*\]\(([^ \)]*)(\)\| )` at the front of a text, or none: a `[`, the caption up to the first `]`, which `(` must follow, then the path up to the first space or `)`, which ends the match |
| Assets.LinkAtSound | makereveal.py:218 | what the reference scanner finds is a well-formed match (caption without `]`, path without space or `)`, followed by `)` or a space) at the front of the text |
| Assets.LinkTextLayout | makereveal.py:218 | the position of each part of a match's text |
| Assets.LinkAtSearches | makereveal.py:218 | on a text that starts with a well-formed match, the scanner's searches stop at the end of its caption and of its path |
| Assets.LinkAtComplete | makereveal.py:218 | a well-formed match at the front of the text is what the scanner finds |
| Assets.LinkAtIff | makereveal.py:218 | the scanner finds match `l` exactly when the text starts with the text of `l` and `l` is well formed |
| Assets.OccursInSuffix | makereveal.py:218 | what occurs in a suffix of the line occurs in the line |
| Assets.Links | makereveal.py:218 | every match `re.finditer` yields is well formed and occurs in the line |
| Assets.NoLinksWithoutBracket | makereveal.py:218 | a line without `[` holds no reference |
| Assets.Basename | makereveal.py:231 | a base name holds no `/` |
| Assets.BasenameIsLastComponent | makereveal.py:231 | the base name is the tail of the path, and it is either the whole path or preceded by `/` |
| Assets.LastDot | makereveal.py:231 | the index of the last `.`, or nothing when there is no `.` |
| Assets.SplitExt | makereveal.py:231-234 | stem and extension concatenate to the base name, and the extension is empty or a `.` followed by no other `.` |
| Assets.TargetName | makereveal.py:230-235 | `trg`: the stem of the path's base name, then `_`, then the number in decimal, then the extension |
| Assets.SplitExtWithoutExt | makereveal.py:231 | when `splitext` gives no extension, the stem is the whole name and every `.` in it is preceded by dots only |
| Assets.SplitExtOfPlainTarget | makereveal.py:230-235 | `splitext` of `stem_n` with a stem whose dots all lead gives no extension |
| Assets.SplitExtOfDottedTarget | makereveal.py:230-235 | `splitext` of `stem_n.ext` gives back `stem_n` and `.ext` |
| Assets.SplitExtOfTarget | makereveal.py:230-235 | `splitext` of a copy's name gives back `stem_n` and the extension the name was built with |
| Assets.TrailingDigitsAfterUnderscore | makereveal.py:232-233 | the digits at the end of `stem_n` are exactly `str(n)` |
| Assets.TargetNameInjective | makereveal.py:230-235 | two copy names are equal only when they carry the same number, whatever the paths, so files entered under different numbers get different names |
| Assets.Register | makereveal.py:219-236 | a known path or a path that is not a file leaves the table alone; a new file is entered under `stem_n.ext`, with n one more than the table's size, and adds exactly one copy |
| Assets.RewriteLink | makereveal.py:219-244 | the line after one match: a path already in the table is replaced in the whole line by its recorded name; a path entered by this match has the match replaced by the match with the path renamed; otherwise the line is kept |
| Assets.RelocateLink | makereveal.py:219-244 | a known path is replaced in the whole line by its recorded name; a new file's match is replaced by the match with the path renamed; otherwise the line is unchanged |
| Assets.RelocateLinks | makereveal.py:218-244 | the loop over the matches in order: each one rewrites the line as it stands with the table as it stands, and the copies are appended in order |
| Assets.RelocateLine | makereveal.py:206-245 | `checkForExternalFile(line)`: the line unchanged and nothing copied when copying is off, otherwise the loop over the matches `re.finditer` finds in the original line |
| Assets.LinksSkipChar | makereveal.py:218 | no match starts at a character other than `[` |
| Assets.LinksAfterPlainPrefix | makereveal.py:218 | text without `[` in front of a line adds no match and leaves the others as they are |
| Assets.OnlyLink | makereveal.py:218 | a line whose only `[` starts a well-formed reference has exactly that match |
| Assets.RenamedLinkText | makereveal.py:243 | renaming the path inside a match gives the match with the new path, when the path's first character is not in the text before it |
| Assets.RelocatedReference | makereveal.py:218-245 | a line whose one reference names a new existing file becomes the same line with that reference pointing to `stem_n.ext`, n one more than the table's size (`![alt](img.png "t")` becomes `![alt](img_1.png "t")`); the path enters the table and is copied once |
| Assets.RelocateLinksRegisters | makereveal.py:218-245 | the table and the copies after a line's matches depend only on the matches, not on the text of the line |
| Assets.Journal | makereveal.py:219-241 | the invariant of the table of external files: it is exactly what the log of copies records, the i-th copy is named with i, and no path is copied twice |
| Assets.JournalSize | makereveal.py:236 | the table holds one entry per copy |
| Assets.JournalEntries | makereveal.py:233-241 | the i-th copy is in the table under its source, named with the number i + 1, and no path is copied twice |
| Assets.JournalTargetsDistinct | makereveal.py:230-241 | no two copies in the log have the same name, so no `shutil.copy` overwrites an earlier copy |
| Assets.NumberedNamesDiffer | makereveal.py:230-235 | copies named with different numbers have different names |
| Assets.JournalAppend | makereveal.py:233-241 | entering a new path under the next number, with its copy, keeps the journal |
| Assets.RegisterKeepsJournal | makereveal.py:219-241 | one match keeps the journal |
| Assets.RegisterAllKeepsJournal | makereveal.py:218-245 | the matches of a line keep the journal |
| Assets.RelocationKeepsJournal | makereveal.py:218-245 | relocating a line keeps the journal |
| Assets.FreshCopiesConcat | makereveal.py:218-245 | fresh copies followed by copies fresh for a larger table are fresh |
| Assets.RegisterAllExtendsTable | makereveal.py:219-241 | a line never changes or drops an entry of the table, and every copy is of a path that was not yet in the table, is an existing file, and ends up in the table |
| Assets.KnownPathsAreNotCopiedAgain | makereveal.py:219-221 | matches whose paths are all in the table change nothing and copy nothing |
| Segments.IsDelimiter | makereveal.py:187 | the lines the delimiter pattern `^\-{3}\r?\n$` matches with `re.match`: `---` and a newline with an optional `\r`, and the same with one more `\n`, since `$` also matches in front of a final newline |
| Segments.DelimiterLine | makereveal.py:88 | on a line as `readline` returns it, the delimiter pattern matches exactly `---\n` and `---\r\n` |
| Segments.RelocateAll | makereveal.py:186-199 | relocation yields one text per line |
| Segments.Blocks | makereveal.py:186-199 | there is one block more than there are delimiter lines |
| Segments.BlocksCoverBody | makereveal.py:186-199 | cutting at the delimiters loses and adds nothing: the blocks concatenate to the text of the non-delimiter lines |
| Segments.HasContent | makereveal.py:201 | the test that keeps the last block: something is left once `\r` and `\n` are removed and whitespace stripped |
| Segments.HasContentIff | makereveal.py:201 | the open block is kept exactly when it holds a non-whitespace character |
| Segments.ClosedSlides | makereveal.py:187-197 | the slides from the closed blocks: the header block when YAML rejects it, then every later closed block; the block before the first delimiter gives nothing |
| Segments.FileSlides | makereveal.py:187-202 | the slides of one file: the closed blocks' slides, then the last block when it has content |
| Segments.Header | makereveal.py:188-190 | the metadata once the blocks are closed: YAML's result for the second block when that block is closed and YAML accepts it, and the metadata before otherwise |
| Segments.ParsedFile | makereveal.py:173-204 | the state after `parseFile`: the file's slides appended after the earlier ones, the metadata as `Header` leaves it, and the table and copies after relocating every non-delimiter line in order |
| Segments.ClosedSlidesStep | makereveal.py:187-197 | closing a block adds it as a slide when it is a later block, or the header that YAML rejects; otherwise nothing |
| Segments.RelocateAllKeepsJournal | makereveal.py:199 | relocating all lines keeps the journal |
| Segments.SkipKeepsLines | makereveal.py:214-215 | with copying switched off, every line stays as it is and nothing is copied |
| Segments.ParsedFileKeepsJournal | makereveal.py:173-204 | parsing a file keeps the journal |
| Segments.FewDelimiters | makereveal.py:187-202 | a file with fewer than two delimiter lines leaves the metadata alone and adds at most one slide |
| Segments.ParsedFileAppends | makereveal.py:173-204 | earlier slides stay in front. A file with `d` delimiters adds `d - 2` slides (when `d >= 3`), one for a header YAML rejects, and one for a last block with content |
| Segments.AcceptedHeaderIsNotASlide | makereveal.py:188-197 | when YAML accepts the header, the file's slides are the later closed blocks and the last block |
| Segments.ParsedFiles | makereveal.py:163-169 | the state after `parseFile` on each file in turn, the state threaded from one file to the next, each file with its own directory for `isFile` |
| Segments.ParsedFilesSnoc | makereveal.py:163-169 | one more file is parsed from the state the earlier files left |
| Segments.ParsedFilesKeepJournal | makereveal.py:163-169 | the whole run keeps the journal |
| Segments.ParsedFilesAppend | makereveal.py:163-169 | the slides of earlier files come first |
| Segments.MetadataOnlyFromHeaders | makereveal.py:188-190 | files without a closed header leave the metadata as it was |
| Segments.LaterHeaderOverwrites | makereveal.py:188-190 | a last file whose header YAML accepts replaces the metadata of all earlier files |
| Segments.RelocateAllDelimiter | makereveal.py:187-197 | a delimiter line opens a new, empty block and leaves the table alone |
| Segments.RelocateAllText | makereveal.py:198-199 | a text line is relocated with the table so far and appended to the open block |
| Segments.ScanOf | makereveal.py:184-199 | the loop of `parseFile` line by line: a delimiter closes the open block (the second block to YAML or, rejected, to the slides, later blocks to the slides), counts, and opens an empty block; a text line is relocated and appended to the open block |
| Segments.BlockScan | makereveal.py:184-199 | the same position described by the blocks: the number of delimiters, the open block, and the state after the closed blocks |
| Segments.BlockScanDelimiter | makereveal.py:187-197 | a delimiter closes the block that the block description has open |
| Segments.CloseOpenBlock | makereveal.py:187-197 | closing the open block gives the slides and metadata of one more closed block |
| Segments.BlockScanText | makereveal.py:198-199 | a text line extends the open block of the block description |
| Segments.ScanIsBlockScan | makereveal.py:184-199 | the line-by-line loop agrees with the block description after every prefix of the lines |
| Segments.ScanStep | makereveal.py:186-199 | one more line is one more step of the loop |
| Segments.ScanEnd | makereveal.py:184-202 | the loop's end state, with the open block kept when it has content, is the state the block description gives for the whole file |
| Assembly.SlideMapping | makereveal.py:278-281 | the mapping under the metadata key `template`, or the empty mapping when there is none, as the `KeyError` branch gives |
| Assembly.SlidesHtml | makereveal.py:268-283 | what `getSlidesHtml()` returns: the opening text, the substituted slides joined with the closing and opening texts, and the closing text |
| Assembly.SubstituteAll | makereveal.py:278-281 | every slide is substituted with the same mapping, in order |
| Assembly.JoinIsWrapping | makereveal.py:282-283 | joining with the closing and opening texts between slides, and framing the result, wraps every slide on its own |
| Assembly.SlidesHtmlSections | makereveal.py:268-283 | the slides' HTML is one `<section>` per slide, in order, each holding the substituted slide; without slides it is one empty section |
| Assembly.Document | makereveal.py:306-316 | the page `applyTemplate` builds: `{{__slides__}}` parked as the sentinel, `{{__theme__}}` replaced by the theme, `replacePlaceholder` with the metadata, then the sentinel replaced by the slides' HTML |
| Assembly.PageMapping | makereveal.py:306-316 | the mapping the page is resolved with: the slides' HTML under `slides`, the theme under `theme`, then the metadata entries |
| Assembly.BangSafeNoSentinel | makereveal.py:316 | the sentinel cannot start inside text in which every `!` is followed by something other than `#` |
| Assembly.ErasePieceSentinel | makereveal.py:316 | one piece under the final replacement: the parked slides placeholder takes the slides, everything else is kept |
| Assembly.EraseSentinel | makereveal.py:316 | the final replacement puts the slides exactly where the slides placeholders were |
| Assembly.SubstitutedIsParked | makereveal.py:307-313 | after the theme and the metadata pass the slides are still parked and no other value can start the sentinel |
| Assembly.PageFillAgrees | makereveal.py:307-316 | what the four passes fill a key with is its value in `PageMapping`: slides, theme, then the metadata |
| Assembly.DocumentIsResolved | makereveal.py:306-316 | the page is the template with every placeholder resolved: `{{__slides__}}` by the slides, `{{__theme__}}` by the theme, any other by the first metadata entry of its key, and the rest deleted |
| Assembly.PageLookup | makereveal.py:306-316 | the slides and the theme take precedence over metadata keys of the same name |
| Assembly.SlidesInsertedVerbatim | makereveal.py:306-316 | the slides go in verbatim where `{{__slides__}}` is, in a template with any other placeholders, whatever placeholders the slides hold |
| Assembly.ThemeNotOverridden | makereveal.py:309-313 | `{{__theme__}}` takes the theme in a template with any other placeholders, and a metadata key `theme` cannot override it |
| Assembly.MetadataFillsPlaceholder | makereveal.py:312-313 | a template placeholder that metadata entry `i` names takes that entry's value, when no earlier entry has its key |
| Assembly.UnknownPlaceholderRemoved | makereveal.py:312-313 | a template placeholder that neither the metadata nor the page fills is deleted, and the rest of the page is resolved as usual |
| Reveal.FileLines | makereveal.py:165-186 | the lines of a file opened in text mode concatenate to its translated text, each is a line without `\r`, and every line but the last ends in `\n` |
| Reveal.Inputs | makereveal.py:163-169 | each input file, in order, with the lines of its text |
| Reveal.TracedSnoc | makereveal.py:163-169 | parsing one more file extends the run's trace |
| Reveal.TracedPrefix | makereveal.py:163-169 | a trace of all files holds a trace of all but the last |
| Reveal.TraceIsParsedFiles | makereveal.py:163-169 | a trace of the input files ends in the state `ParsedFiles` gives for the whole run |
| Reveal.InputsSnoc | makereveal.py:163-169 | the inputs of all files are the inputs of all but the last, then the last |
| Reveal.MdParser.constructor | makereveal.py:60-96 | no files, empty metadata, theme `black`, copying on, no slides, empty page, empty table, no current file |
| Reveal.MdParser.AddFile | makereveal.py:99-110 | the file is appended to the input files and nothing else changes |
| Reveal.MdParser.SetTheme | makereveal.py:112-123 | the theme is set and nothing else changes |
| Reveal.MdParser.SetDisableExternalFiles | makereveal.py:125-134 | copying is switched off and nothing else changes |
| Reveal.MdParser.CheckForExternalFile | makereveal.py:206-245 | the line returned, the new table and the copies appended are those of `RelocateLine`, and the journal is kept |
| Reveal.MdParser.RelocateMatch | makereveal.py:219-244 | one match of the loop: line, table and copies as `RelocateLink` gives them |
| Reveal.MdParser.CloseBlock | makereveal.py:187-195 | the second block becomes the metadata when YAML accepts it and a slide otherwise; later blocks become slides |
| Reveal.MdParser.ScanLines | makereveal.py:184-199 | the loop leaves the state and the open block that `ScanOf` gives, and keeps the journal |
| Reveal.MdParser.ParseFile | makereveal.py:173-204 | the new state is `ParsedFile` of the old one, and the journal is kept |
| Reveal.MdParser.ApplyTemplate | makereveal.py:285-318 | the page is `Document` of the template, the theme, the metadata and the slides; nothing else changes |
| Reveal.MdParser.ReadFiles | makereveal.py:152-171 | it succeeds exactly when there are input files and all of them can be opened; then the state is `ParsedFiles` of the old one over the files in order, and the current file is the last one; the settings and the page are unchanged |
| Reveal.MdParser.ParseInputs | makereveal.py:163-170 | it parses every file in turn and fails exactly when one cannot be opened; on success it leaves a trace from the old state to the new one; the settings and the page are unchanged |
| Reveal.MdParser.ParseNext | makereveal.py:164-169 | it opens one file, fails exactly when the file cannot be opened, and otherwise makes it the current file and extends the trace by its parse; the settings and the page are unchanged |

## Left out

- The command line (`main`), `setOutputFile`, `writeOutput` and `getHtml` are not modelled. They are argument handling and output, and `getHtml` only returns the `html` field.
- `dieNice` prints a message and exits. The model returns `false` from `ReadFiles` instead.
- Reveal.MdParser.ReadFiles: after a failure the state is left unspecified apart from `Valid()` and the unchanged settings, since the program would exit there.
- File reading is modelled as the map `read`, from the files that can be opened to their text. Failure other than "cannot be opened" is not modelled.
- The template file is passed to `ApplyTemplate` as its text, so failing to open it is not modelled.
- `os.path.isfile` is the parameter `isFile`, and `shutil.copy` is the log `copies`. The directories `basesrc` and `basetrg` are folded into `isFile` and into the copy log, so the source and target paths of a copy are not spelled out.
- `os.path.basename` uses `/` as the only separator. `os.sep` and Windows paths are not modelled.
- YAML is the parameter `yaml`, and its real behaviour is not modelled. The model assumes it either raises or returns a mapping. A result that is not a mapping is not modelled: an empty header yields `None`, and later the Python code crashes on it. So are non-string keys.
- Values are taken in their `str()` form, and that conversion is not modelled.
- A `template` entry that is not a mapping is not modelled.
- `\w` is restricted to ASCII word characters. Unicode word characters are not modelled.
- Placeholders.SubstituteKeyAt: requires the text around the placeholder and the value to hold no `{`. `Templates.SubstituteIsResolve` covers texts with several placeholders.
- Placeholders.StripTokens: its own contract states only that deletion never lengthens the text. What it deletes is stated by `TokenLengthIff`, `StripTokensFixpointIff` and the other lemmas about it.
- Assembly.DocumentIsResolved: proved for templates whose literal text holds no `{{` and no `!#` and does not end in `{` or `!`, with a theme and metadata values of the same kind and metadata keys that are words. On other templates the page is still `Document`, but what it contains is not stated.
- Assembly.SlidesInsertedVerbatim, Assembly.ThemeNotOverridden, Assembly.MetadataFillsPlaceholder, Assembly.UnknownPlaceholderRemoved: the same restriction on the template, the theme and the metadata as `DocumentIsResolved`.
- Templates.SubstituteIsResolve: proved for literal text and values without `{{` and not ending in `{`, and keys that are words. A value that holds another key's placeholder, which a later key would then replace, is outside it.
- The regular expressions are modelled as deterministic scanners and not by general regular-expression matching. The argument that they agree is given in each scanner's comment.
