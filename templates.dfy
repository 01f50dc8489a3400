/**
 * Texts as the substitution passes see them: literal text interleaved with
 * placeholders. As long as the literal text cannot start a placeholder
 * match (no `{{`, and no `{` at its end), `replacePlaceholder` acts on such
 * a text one placeholder at a time: each placeholder a key names takes the
 * value of the key's first entry, and every other one is deleted.
 */
module Templates {
  import opened Wrappers
  import opened Strings
  import opened Placeholders

  /** A piece of a text: literal text, or the placeholder of a key. */
  datatype Piece = Text(text: string) | Slot(key: string)

  /** Brace-safe literal text, and word keys only. */
  predicate WellFormed(ps: seq<Piece>) {
    forall i :: 0 <= i < |ps| ==>
      (ps[i].Text? ==> BraceSafe(ps[i].text)) && (ps[i].Slot? ==> IsWord(ps[i].key))
  }

  /** Keys that are words, with brace-safe values. */
  predicate SafeMapping(m: Mapping) {
    forall i :: 0 <= i < |m| ==> IsWord(m[i].0) && BraceSafe(m[i].1)
  }

  /** Brace-safe values only. */
  predicate SafeFill(fill: map<string, string>) {
    forall k :: k in fill ==> BraceSafe(fill[k])
  }

  /** A piece with the placeholders of the keys in `fill` replaced. */
  function ShowPiece(p: Piece, fill: map<string, string>): string {
    match p
    case Text(t) => t
    case Slot(k) => if k in fill then fill[k] else Token(k)
  }

  /** The text of the pieces once the keys in `fill` are replaced, the other
      placeholders still in place. */
  function Show(ps: seq<Piece>, fill: map<string, string>): string
    decreases |ps|
  {
    if ps == [] then "" else ShowPiece(ps[0], fill) + Show(ps[1..], fill)
  }

  /** The text the pieces stand for. */
  function Render(ps: seq<Piece>): string {
    Show(ps, map[])
  }

  /** A piece with the keys in `fill` replaced and every other placeholder deleted. */
  function ErasePiece(p: Piece, fill: map<string, string>): string {
    match p
    case Text(t) => t
    case Slot(k) => if k in fill then fill[k] else ""
  }

  /** The text of the pieces once the keys in `fill` are replaced and every
      other placeholder is deleted. */
  function Erase(ps: seq<Piece>, fill: map<string, string>): string
    decreases |ps|
  {
    if ps == [] then "" else ErasePiece(ps[0], fill) + Erase(ps[1..], fill)
  }

  /** The value of the first entry for key `k`, if there is one. */
  function Lookup(m: Mapping, k: string): Option<string>
    decreases |m|
  {
    if m == [] then None else if m[0].0 == k then Some(m[0].1) else Lookup(m[1..], k)
  }

  /** The reference result: every placeholder takes the value of its key's
      first entry, or vanishes when no entry names its key. */
  function Resolve(ps: seq<Piece>, m: Mapping): string
    decreases |ps|
  {
    if ps == [] then ""
    else
      var head := match ps[0]
        case Text(t) => t
        case Slot(k) => if Lookup(m, k).Some? then Lookup(m, k).value else "";
      head + Resolve(ps[1..], m)
  }

  /** Replacing key `k` by `v`: a key replaced already has no placeholder
      left, so it keeps its value. */
  function Put(fill: map<string, string>, k: string, v: string): map<string, string> {
    if k in fill then fill else fill[k := v]
  }

  /** The keys of the mapping replaced in order. */
  function PutAll(fill: map<string, string>, m: Mapping): map<string, string>
    decreases |m|
  {
    if m == [] then fill else PutAll(Put(fill, m[0].0, m[0].1), m[1..])
  }

  /** `Lookup` finds the entry at `i` when no earlier entry has its key. */
  lemma {:induction false} LookupAt(m: Mapping, i: nat)
    requires i < |m| && forall j :: 0 <= j < i ==> m[j].0 != m[i].0
    ensures Lookup(m, m[i].0) == Some(m[i].1)
    decreases i
  {
    if i > 0 {
      assert m[1..][i - 1] == m[i];
      LookupAt(m[1..], i - 1);
    }
  }

  /** With distinct keys, as in a dict, every entry is its key's first. */
  lemma LookupDistinct(m: Mapping, i: nat)
    requires DistinctKeys(m) && i < |m|
    ensures Lookup(m, m[i].0) == Some(m[i].1)
  {
    LookupAt(m, i);
  }

  /** `Lookup` finds nothing exactly when no entry has the key. */
  lemma {:induction false} LookupNone(m: Mapping, k: string)
    ensures Lookup(m, k) == None <==> forall i :: 0 <= i < |m| ==> m[i].0 != k
    decreases |m|
  {
    if m != [] {
      LookupNone(m[1..], k);
      assert forall i :: 1 <= i < |m| ==> m[i] == m[1..][i - 1];
    }
  }

  /** The first entry for a key is one of the mapping's entries. */
  lemma {:induction false} LookupIsEntry(m: Mapping, k: string)
    requires Lookup(m, k).Some?
    ensures exists i :: 0 <= i < |m| && m[i].0 == k && m[i].1 == Lookup(m, k).value
    decreases |m|
  {
    if m[0].0 != k {
      LookupIsEntry(m[1..], k);
      var i :| 0 <= i < |m[1..]| && m[1..][i].0 == k && m[1..][i].1 == Lookup(m, k).value;
      assert m[i + 1] == m[1..][i];
    } else {
      assert m[0].1 == Lookup(m, k).value;
    }
  }

  /** Keys already replaced stay as they are; a key not replaced yet ends up
      with the value of its first entry, if any. */
  lemma {:induction false} PutAllLookup(fill: map<string, string>, m: Mapping, k: string)
    ensures k in fill ==> k in PutAll(fill, m) && PutAll(fill, m)[k] == fill[k]
    ensures k !in fill ==> (k in PutAll(fill, m) <==> Lookup(m, k).Some?)
    ensures k !in fill && Lookup(m, k).Some? ==> PutAll(fill, m)[k] == Lookup(m, k).value
    decreases |m|
  {
    if m != [] {
      PutAllLookup(Put(fill, m[0].0, m[0].1), m[1..], k);
    }
  }

  /** One piece under one literal replacement. */
  lemma ShowPieceReplace(p: Piece, y: string, fill: map<string, string>, k: string, v: string)
    requires (p.Text? ==> BraceSafe(p.text)) && (p.Slot? ==> IsWord(p.key))
    requires SafeFill(fill) && IsWord(k)
    ensures Replace(ShowPiece(p, fill) + y, Token(k), v) == ShowPiece(p, Put(fill, k, v)) + Replace(y, Token(k), v)
  {
    TokenLayout(k);
    match p
    case Text(t) =>
      BraceSafeReplace(t, y, Token(k), v);
    case Slot(k') =>
      if k' in fill {
        BraceSafeReplace(fill[k'], y, Token(k), v);
      } else if k' == k {
        ReplaceAtFront(Token(k), y, v);
      } else {
        ReplaceTokenOther(k', y, k, v);
      }
  }

  /** A literal replacement of a word key replaces exactly the placeholders
      of that key that are still in place. */
  lemma {:induction false} ShowReplace(ps: seq<Piece>, fill: map<string, string>, k: string, v: string)
    requires WellFormed(ps) && SafeFill(fill) && IsWord(k)
    ensures Replace(Show(ps, fill), Token(k), v) == Show(ps, Put(fill, k, v))
    decreases |ps|
  {
    if ps != [] {
      assert WellFormed(ps[1..]) by {
        assert forall i :: 0 <= i < |ps[1..]| ==> ps[1..][i] == ps[i + 1];
      }
      ShowPieceReplace(ps[0], Show(ps[1..], fill), fill, k, v);
      ShowReplace(ps[1..], fill, k, v);
    }
  }

  /** The literal-replacement pass replaces each key's placeholders once,
      with the value of its first entry. */
  lemma {:induction false} ShowReplaceKeys(m: Mapping, ps: seq<Piece>, fill: map<string, string>)
    requires WellFormed(ps) && SafeFill(fill) && SafeMapping(m)
    ensures ReplaceKeys(m, Show(ps, fill)) == Show(ps, PutAll(fill, m))
    decreases |m|
  {
    if m != [] {
      ShowReplace(ps, fill, m[0].0, m[0].1);
      assert SafeMapping(m[1..]) by {
        assert forall i :: 0 <= i < |m[1..]| ==> m[1..][i] == m[i + 1];
      }
      ShowReplaceKeys(m[1..], ps, Put(fill, m[0].0, m[0].1));
    }
  }

  /** One piece under the deletion pass. */
  lemma ShowPieceStrip(p: Piece, y: string, fill: map<string, string>)
    requires (p.Text? ==> BraceSafe(p.text)) && (p.Slot? ==> IsWord(p.key))
    requires SafeFill(fill)
    ensures StripTokens(ShowPiece(p, fill) + y) == ErasePiece(p, fill) + StripTokens(y)
  {
    match p
    case Text(t) =>
      BraceSafeStrip(t, y);
    case Slot(k) =>
      if k in fill {
        BraceSafeStrip(fill[k], y);
      } else {
        StripTokensLeadingPlaceholder(k, y);
        EmptyPrefix(StripTokens(y));
      }
  }

  lemma EmptyPrefix(r: string)
    ensures "" + r == r
  {
  }

  /** The deletion pass removes exactly the placeholders still in place. */
  lemma {:induction false} ShowStrip(ps: seq<Piece>, fill: map<string, string>)
    requires WellFormed(ps) && SafeFill(fill)
    ensures StripTokens(Show(ps, fill)) == Erase(ps, fill)
    decreases |ps|
  {
    if ps != [] {
      assert WellFormed(ps[1..]) by {
        assert forall i :: 0 <= i < |ps[1..]| ==> ps[1..][i] == ps[i + 1];
      }
      ShowPieceStrip(ps[0], Show(ps[1..], fill), fill);
      ShowStrip(ps[1..], fill);
    }
  }

  /** Replacing keys that are not filled yet keeps values brace-safe. */
  lemma {:induction false} PutAllSafe(fill: map<string, string>, m: Mapping)
    requires SafeFill(fill) && SafeMapping(m)
    ensures SafeFill(PutAll(fill, m))
    decreases |m|
  {
    if m != [] {
      assert SafeMapping(m[1..]) by {
        assert forall i :: 0 <= i < |m[1..]| ==> m[1..][i] == m[i + 1];
      }
      PutAllSafe(Put(fill, m[0].0, m[0].1), m[1..]);
    }
  }

  /** `replacePlaceholder` on pieces: the keys' placeholders are replaced
      in order, and the rest are deleted. */
  lemma ShowSubstitute(m: Mapping, ps: seq<Piece>, fill: map<string, string>)
    requires WellFormed(ps) && SafeFill(fill) && SafeMapping(m)
    ensures Substitute(m, Show(ps, fill)) == Erase(ps, PutAll(fill, m))
  {
    ShowReplaceKeys(m, ps, fill);
    PutAllSafe(fill, m);
    ShowStrip(ps, PutAll(fill, m));
  }

  /** The fill agrees with the first entries of `m` on key `k`. */
  predicate Agrees(fill: map<string, string>, m: Mapping, k: string) {
    && (k in fill <==> Lookup(m, k).Some?)
    && (k in fill ==> fill[k] == Lookup(m, k).value)
  }

  /** Erasing with a fill that agrees with `m` on every key is resolving with `m`. */
  lemma {:induction false} EraseIsResolve(ps: seq<Piece>, fill: map<string, string>, m: Mapping)
    requires forall k :: Agrees(fill, m, k)
    ensures Erase(ps, fill) == Resolve(ps, m)
    decreases |ps|
  {
    if ps != [] {
      if ps[0].Slot? {
        assert Agrees(fill, m, ps[0].key);
      }
      EraseIsResolve(ps[1..], fill, m);
    }
  }

  /** `replacePlaceholder` on a text made of brace-safe literal text and
      placeholders of word keys, with word keys and brace-safe values:
      every placeholder takes the value of its key's first entry, and the
      placeholders no key names are deleted. */
  lemma SubstituteIsResolve(m: Mapping, ps: seq<Piece>)
    requires WellFormed(ps) && SafeMapping(m)
    ensures Substitute(m, Render(ps)) == Resolve(ps, m)
  {
    ShowSubstitute(m, ps, map[]);
    forall k ensures Agrees(PutAll(map[], m), m, k) {
      PutAllLookup(map[], m, k);
    }
    EraseIsResolve(ps, PutAll(map[], m), m);
  }

  /** Resolving distributes over concatenation of pieces. */
  lemma {:induction false} ResolveConcat(ps: seq<Piece>, qs: seq<Piece>, m: Mapping)
    ensures Resolve(ps + qs, m) == Resolve(ps, m) + Resolve(qs, m)
    decreases |ps|
  {
    if ps == [] {
      assert ps + qs == qs;
    } else {
      assert (ps + qs)[0] == ps[0] && (ps + qs)[1..] == ps[1..] + qs;
      ResolveConcat(ps[1..], qs, m);
    }
  }

  /** Resolving a template around one placeholder: the placeholder takes the
      value of its key's first entry, or nothing. */
  lemma ResolveAround(pre: seq<Piece>, k: string, post: seq<Piece>, m: Mapping)
    ensures Resolve(pre + [Slot(k)] + post, m)
         == Resolve(pre, m) + (if Lookup(m, k).Some? then Lookup(m, k).value else "") + Resolve(post, m)
  {
    ResolveConcat(pre + [Slot(k)], post, m);
    ResolveConcat(pre, [Slot(k)], m);
    assert [Slot(k)][1..] == [];
  }
}
