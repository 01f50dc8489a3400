/**
 * Page assembly (`MdParser.getSlidesHtml`, `MdParser.applyTemplate`): every
 * slide is substituted with the mapping under the metadata key `template` and
 * wrapped in a `<section>`; the page template has its slides placeholder
 * parked behind a sentinel, its theme placeholder filled, the metadata
 * substituted, and finally the sentinel replaced by the slides.
 */
module Assembly {
  import opened Wrappers
  import opened Strings
  import opened Placeholders
  import opened Templates

  /** The text in front of every slide. */
  const Open: string := "<section data-markdown>\n<textarea data-template>\n"

  /** The text after every slide. */
  const Close: string := "</textarea>\n</section>\n"

  /** The slides placeholder of the page template. */
  const SlidesToken: string := Token("slides")

  /** The theme placeholder of the page template. */
  const ThemeToken: string := Token("theme")

  /** What the slides placeholder is parked as while the metadata is substituted. */
  const Sentinel: string := "!###__slides__###!"

  /** The mapping applied to every slide: the one under `template`, or none. */
  function SlideMapping(meta: Metadata): Mapping {
    if meta.template.Some? then meta.template.value else []
  }

  /** Every slide after substitution, in order. */
  function SubstituteAll(m: Mapping, slides: seq<string>): (r: seq<string>)
    ensures |r| == |slides|
    ensures forall i :: 0 <= i < |r| ==> r[i] == Substitute(m, slides[i])
    decreases |slides|
  {
    if slides == [] then [] else [Substitute(m, slides[0])] + SubstituteAll(m, slides[1..])
  }

  /** `getSlidesHtml()`. */
  function SlidesHtml(slides: seq<string>, meta: Metadata): string {
    Open + Join(SubstituteAll(SlideMapping(meta), slides), Close + Open) + Close
  }

  /** Each part wrapped in `Open` and `Close`, one after the other. */
  function Wrapped(parts: seq<string>): string
    decreases |parts|
  {
    if parts == [] then "" else Open + parts[0] + Close + Wrapped(parts[1..])
  }

  /** Joining with `Close + Open` between the parts and framing the result is
      wrapping every part on its own. */
  lemma {:induction false} JoinIsWrapping(parts: seq<string>)
    requires parts != []
    ensures Open + Join(parts, Close + Open) + Close == Wrapped(parts)
    decreases |parts|
  {
    if |parts| == 1 {
      assert Wrapped(parts[1..]) == "";
    } else {
      JoinIsWrapping(parts[1..]);
      Regroup(Open, parts[0], Close, Join(parts[1..], Close + Open));
    }
  }

  /** Regrouping the parts of a wrapped slide. */
  lemma Regroup(o: string, x: string, c: string, j: string)
    ensures o + (x + (c + o) + j) + c == o + x + c + (o + j + c)
  {
  }

  /** The slides' HTML is one `<section>` per slide, in order, each holding
      the substituted slide; without slides it is a single empty section. */
  lemma SlidesHtmlSections(slides: seq<string>, meta: Metadata)
    ensures slides != [] ==> SlidesHtml(slides, meta) == Wrapped(SubstituteAll(SlideMapping(meta), slides))
    ensures slides == [] ==> SlidesHtml(slides, meta) == Open + Close
  {
    if slides != [] {
      JoinIsWrapping(SubstituteAll(SlideMapping(meta), slides));
    }
  }

  /** The page after `applyTemplate`. */
  function Document(template: string, theme: string, meta: Metadata, slides: seq<string>): string {
    var parked := Replace(template, SlidesToken, Sentinel);
    var themed := Replace(parked, ThemeToken, theme);
    var substituted := Substitute(meta.fields, themed);
    Replace(substituted, Sentinel, SlidesHtml(slides, meta))
  }

  /** Text in which the sentinel cannot start: every `!` is followed by a
      character other than `#`. */
  predicate BangSafe(s: string) {
    forall i :: 0 <= i < |s| && s[i] == '!' ==> i + 1 < |s| && s[i + 1] != '#'
  }

  /** Text that neither a placeholder match nor the sentinel can start in. */
  predicate Literal(s: string) {
    BraceSafe(s) && BangSafe(s)
  }

  /** A page template: literal text that is `Literal`, and placeholders of
      word keys. `<!DOCTYPE html>`, `Reveal.initialize({ ... })` and any
      number of placeholders are allowed; `{{` outside a placeholder and
      `!#` are not. */
  predicate PageTemplate(ps: seq<Piece>) {
    WellFormed(ps) && forall i :: 0 <= i < |ps| && ps[i].Text? ==> BangSafe(ps[i].text)
  }

  /** Metadata keys that are words, with `Literal` values. */
  predicate LiteralFields(m: Mapping) {
    forall i :: 0 <= i < |m| ==> IsWord(m[i].0) && Literal(m[i].1)
  }

  /** What the page's placeholders take, by first entry: the slides and the
      theme before any metadata key. */
  function PageMapping(theme: string, meta: Metadata, slides: seq<string>): Mapping {
    [("slides", SlidesHtml(slides, meta)), ("theme", theme)] + meta.fields
  }

  /** No sentinel starts inside bang-safe text. */
  lemma BangSafeNoSentinel(x: string, y: string)
    requires BangSafe(x)
    ensures forall i :: 0 <= i < |x| ==> !(Sentinel <= (x + y)[i..])
  {
    assert Sentinel[0] == '!' && Sentinel[1] == '#';
    forall i | 0 <= i < |x| ensures !(Sentinel <= (x + y)[i..]) {
      var s := (x + y)[i..];
      assert s[0] == x[i];
      if x[i] == '!' { assert s[1] == x[i + 1]; }
    }
  }

  /** A fill whose values other than the parked slides are bang-safe. */
  predicate Parked(fill: map<string, string>) {
    && "slides" in fill && fill["slides"] == Sentinel
    && forall k :: k in fill && k != "slides" ==> BangSafe(fill[k])
  }

  /** One piece under the final replacement of the sentinel. */
  lemma ErasePieceSentinel(p: Piece, y: string, fill: map<string, string>, html: string)
    requires (p.Text? ==> BangSafe(p.text)) && Parked(fill)
    ensures Replace(ErasePiece(p, fill) + y, Sentinel, html)
         == ErasePiece(p, fill["slides" := html]) + Replace(y, Sentinel, html)
  {
    match p
    case Text(t) =>
      BangSafeNoSentinel(t, y);
      ReplaceSkip(t, y, Sentinel, html);
    case Slot(k) =>
      if k == "slides" {
        ReplaceAtFront(Sentinel, y, html);
      } else if k in fill {
        BangSafeNoSentinel(fill[k], y);
        ReplaceSkip(fill[k], y, Sentinel, html);
      } else {
        assert "" + y == y;
      }
  }

  /** The final replacement puts the slides where the slides placeholders were. */
  lemma {:induction false} EraseSentinel(ps: seq<Piece>, fill: map<string, string>, html: string)
    requires PageTemplate(ps) && Parked(fill)
    ensures Replace(Erase(ps, fill), Sentinel, html) == Erase(ps, fill["slides" := html])
    decreases |ps|
  {
    if ps != [] {
      assert PageTemplate(ps[1..]) by {
        assert forall i :: 0 <= i < |ps[1..]| ==> ps[1..][i] == ps[i + 1];
      }
      ErasePieceSentinel(ps[0], Erase(ps[1..], fill), fill, html);
      EraseSentinel(ps[1..], fill, html);
    }
  }

  /** After the theme and the metadata pass, the slides are still parked and
      every other value is bang-safe. */
  lemma SubstitutedIsParked(theme: string, meta: Metadata, fill: map<string, string>)
    requires Literal(theme) && LiteralFields(meta.fields)
    requires fill == PutAll(Put(Put(map[], "slides", Sentinel), "theme", theme), meta.fields)
    ensures Parked(fill)
  {
    var f2 := Put(Put(map[], "slides", Sentinel), "theme", theme);
    PutAllLookup(f2, meta.fields, "slides");
    forall k | k in fill && k != "slides" ensures BangSafe(fill[k]) {
      PutAllLookup(f2, meta.fields, k);
      if k !in f2 {
        LookupIsEntry(meta.fields, k);
      }
    }
  }

  /** The page's fill agrees with the first entries of `PageMapping`. */
  lemma PageFillAgrees(theme: string, meta: Metadata, slides: seq<string>, f2: map<string, string>,
                       f3: map<string, string>, k: string)
    requires f2 == Put(Put(map[], "slides", Sentinel), "theme", theme) && f3 == PutAll(f2, meta.fields)
    ensures Agrees(f3["slides" := SlidesHtml(slides, meta)], PageMapping(theme, meta, slides), k)
  {
    var pm := PageMapping(theme, meta, slides);
    assert pm[1..][1..] == meta.fields;
    PutAllLookup(f2, meta.fields, k);
  }

  /** `applyTemplate` on any page template with literal theme and metadata
      values: every placeholder of the template takes the slides, the
      theme, or the value of its metadata key, in that order of
      precedence, and the ones none of them names are deleted. */
  lemma DocumentIsResolved(ps: seq<Piece>, theme: string, meta: Metadata, slides: seq<string>)
    requires PageTemplate(ps) && Literal(theme) && LiteralFields(meta.fields)
    ensures Document(Render(ps), theme, meta, slides) == Resolve(ps, PageMapping(theme, meta, slides))
  {
    var html := SlidesHtml(slides, meta);
    var f1 := Put(map[], "slides", Sentinel);
    var f2 := Put(f1, "theme", theme);
    var f3 := PutAll(f2, meta.fields);
    assert SafeFill(f1) by { assert BraceSafe(Sentinel); }
    ShowReplace(ps, map[], "slides", Sentinel);
    ShowReplace(ps, f1, "theme", theme);
    assert SafeMapping(meta.fields);
    ShowSubstitute(meta.fields, ps, f2);
    SubstitutedIsParked(theme, meta, f3);
    EraseSentinel(ps, f3, html);
    var f4 := f3["slides" := html];
    forall k ensures Agrees(f4, PageMapping(theme, meta, slides), k) {
      PageFillAgrees(theme, meta, slides, f2, f3, k);
    }
    EraseIsResolve(ps, f4, PageMapping(theme, meta, slides));
  }

  /** The first entries of the page's mapping: the slides, the theme, and
      otherwise the metadata's. */
  lemma PageLookup(theme: string, meta: Metadata, slides: seq<string>, k: string)
    ensures var pm := PageMapping(theme, meta, slides);
      && Lookup(pm, "slides") == Some(SlidesHtml(slides, meta))
      && Lookup(pm, "theme") == Some(theme)
      && (k != "slides" && k != "theme" ==> Lookup(pm, k) == Lookup(meta.fields, k))
  {
    var pm := PageMapping(theme, meta, slides);
    assert pm[1..] == [("theme", theme)] + meta.fields;
    assert pm[1..][1..] == meta.fields;
  }

  /** The slides go in verbatim where the slides placeholder is, whatever
      other placeholders the template holds and whatever placeholders the
      slides themselves still hold. */
  lemma SlidesInsertedVerbatim(pre: seq<Piece>, post: seq<Piece>, theme: string, meta: Metadata,
                               slides: seq<string>)
    requires PageTemplate(pre + [Slot("slides")] + post) && Literal(theme) && LiteralFields(meta.fields)
    ensures var pm := PageMapping(theme, meta, slides);
      Document(Render(pre + [Slot("slides")] + post), theme, meta, slides)
      == Resolve(pre, pm) + SlidesHtml(slides, meta) + Resolve(post, pm)
  {
    DocumentIsResolved(pre + [Slot("slides")] + post, theme, meta, slides);
    ResolveAround(pre, "slides", post, PageMapping(theme, meta, slides));
    PageLookup(theme, meta, slides, "slides");
  }

  /** The theme placeholder takes the theme, and a metadata key `theme`
      cannot override it. */
  lemma ThemeNotOverridden(pre: seq<Piece>, post: seq<Piece>, theme: string, meta: Metadata,
                           slides: seq<string>)
    requires PageTemplate(pre + [Slot("theme")] + post) && Literal(theme) && LiteralFields(meta.fields)
    ensures var pm := PageMapping(theme, meta, slides);
      Document(Render(pre + [Slot("theme")] + post), theme, meta, slides)
      == Resolve(pre, pm) + theme + Resolve(post, pm)
  {
    DocumentIsResolved(pre + [Slot("theme")] + post, theme, meta, slides);
    ResolveAround(pre, "theme", post, PageMapping(theme, meta, slides));
    PageLookup(theme, meta, slides, "theme");
  }

  /** A placeholder of the template that a metadata key names takes the
      value of that key's first entry. */
  lemma MetadataFillsPlaceholder(pre: seq<Piece>, post: seq<Piece>, i: nat, theme: string, meta: Metadata,
                                 slides: seq<string>)
    requires i < |meta.fields| && meta.fields[i].0 != "slides" && meta.fields[i].0 != "theme"
    requires forall j :: 0 <= j < i ==> meta.fields[j].0 != meta.fields[i].0
    requires PageTemplate(pre + [Slot(meta.fields[i].0)] + post) && Literal(theme) && LiteralFields(meta.fields)
    ensures var pm := PageMapping(theme, meta, slides);
      Document(Render(pre + [Slot(meta.fields[i].0)] + post), theme, meta, slides)
      == Resolve(pre, pm) + meta.fields[i].1 + Resolve(post, pm)
  {
    var k := meta.fields[i].0;
    DocumentIsResolved(pre + [Slot(k)] + post, theme, meta, slides);
    ResolveAround(pre, k, post, PageMapping(theme, meta, slides));
    PageLookup(theme, meta, slides, k);
    LookupAt(meta.fields, i);
  }

  /** A placeholder of the template that neither the page nor the metadata
      fills is deleted. */
  lemma UnknownPlaceholderRemoved(pre: seq<Piece>, k: string, post: seq<Piece>, theme: string,
                                  meta: Metadata, slides: seq<string>)
    requires k != "slides" && k != "theme" && forall i :: 0 <= i < |meta.fields| ==> meta.fields[i].0 != k
    requires PageTemplate(pre + [Slot(k)] + post) && Literal(theme) && LiteralFields(meta.fields)
    ensures var pm := PageMapping(theme, meta, slides);
      Document(Render(pre + [Slot(k)] + post), theme, meta, slides) == Resolve(pre, pm) + Resolve(post, pm)
  {
    DocumentIsResolved(pre + [Slot(k)] + post, theme, meta, slides);
    ResolveAround(pre, k, post, PageMapping(theme, meta, slides));
    PageLookup(theme, meta, slides, k);
    LookupNone(meta.fields, k);
  }
}
