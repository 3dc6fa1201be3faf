/**
 * The label-to-slug transform that names a status's image, and the image path
 * built from it.
 *
 * `Slugify` follows the four stages of the service: translate the Norwegian letters
 * to ASCII, lower-case, turn spaces into hyphens, keep only alphanumerics, `-` and
 * `_`. `CharSlug`/`SlugSpec` state independently what each character of a label
 * contributes, and `SlugifyMatchesSpec` ties the two together.
 */
module Slug {
  import opened Chars

  /** The six letters the translation table rewrites. */
  predicate IsNorwegian(c: char) {
    c == 'æ' || c == 'Æ' || c == 'ø' || c == 'Ø' || c == 'å' || c == 'Å'
  }

  /** The translation table: æ, Æ, ø, Ø, å, Å to "ae", "Ae", "o", "O", "a", "A". */
  function TranslateChar(c: char): (r: string)
    ensures !IsNorwegian(c) ==> r == [c]
  {
    if c == 'æ' then "ae" else if c == 'Æ' then "Ae"
    else if c == 'ø' then "o" else if c == 'Ø' then "O"
    else if c == 'å' then "a" else if c == 'Å' then "A"
    else [c]
  }

  /** `label.translate(trans)`. */
  function Translate(s: string): string {
    if s == [] then "" else TranslateChar(s[0]) + Translate(s[1..])
  }

  /** `s.lower()`, character by character. */
  function LowerAll(s: string): string {
    if s == [] then "" else [Lower(s[0])] + LowerAll(s[1..])
  }

  /** `s.replace(" ", "-")`. */
  function HyphenateSpaces(s: string): string {
    if s == [] then "" else [if s[0] == ' ' then '-' else s[0]] + HyphenateSpaces(s[1..])
  }

  /** The filter of the final join: alphanumeric, `-` or `_`. */
  predicate IsKept(c: char) {
    IsAlnum(c) || c == '-' || c == '_'
  }

  /** `"".join(c for c in s if c.isalnum() or c in "-_")`. */
  function KeepSlugChars(s: string): string {
    if s == [] then "" else (if IsKept(s[0]) then [s[0]] else "") + KeepSlugChars(s[1..])
  }

  /** `slugify(label)`. */
  function Slugify(name: string): string {
    KeepSlugChars(HyphenateSpaces(LowerAll(Translate(name))))
  }

  /** What one character of a label contributes to its slug. */
  function CharSlug(c: char): string {
    if c == 'æ' || c == 'Æ' then "ae"
    else if c == 'ø' || c == 'Ø' then "o"
    else if c == 'å' || c == 'Å' then "a"
    else if c == ' ' then "-"
    else if IsKept(c) then [Lower(c)]
    else ""
  }

  /** The slug as the concatenation of what each character contributes. */
  function SlugSpec(name: string): string {
    if name == [] then "" else CharSlug(name[0]) + SlugSpec(name[1..])
  }

  /** The characters a slug may contain: lower-case alphanumerics other than æ, ø, å, and `-`, `_`. */
  predicate IsSlugChar(c: char) {
    c == '-' || c == '_' || (IsAlnum(c) && !IsUpper(c) && !IsNorwegian(c))
  }

  /** Lower-casing keeps the length and lower-cases each character in place. */
  lemma {:induction false} LowerAllSpec(s: string)
    ensures |LowerAll(s)| == |s| && forall i :: 0 <= i < |s| ==> LowerAll(s)[i] == Lower(s[i])
  {
    if s != [] {
      LowerAllSpec(s[1..]);
    }
  }

  /** Hyphenation keeps the length and changes exactly the spaces. */
  lemma {:induction false} HyphenateSpacesSpec(s: string)
    ensures |HyphenateSpaces(s)| == |s|
    ensures forall i :: 0 <= i < |s| ==> HyphenateSpaces(s)[i] == (if s[i] == ' ' then '-' else s[i])
  {
    if s != [] {
      HyphenateSpacesSpec(s[1..]);
    }
  }

  /**
   * The filter never lengthens, lets through only kept characters of its input, and
   * lets every kept character of its input through (`KeepSlugCharsInsert` adds the order).
   */
  lemma {:induction false} KeepSlugCharsSpec(s: string)
    ensures |KeepSlugChars(s)| <= |s|
    ensures forall c :: c in KeepSlugChars(s) ==> IsKept(c) && c in s
    ensures forall i :: 0 <= i < |s| && IsKept(s[i]) ==> s[i] in KeepSlugChars(s)
  {
    if s != [] {
      KeepSlugCharsSpec(s[1..]);
    }
  }

  lemma {:induction false} TranslateAppend(a: string, b: string)
    ensures Translate(a + b) == Translate(a) + Translate(b)
  {
    if a != [] {
      assert (a + b)[0] == a[0] && (a + b)[1..] == a[1..] + b;
      TranslateAppend(a[1..], b);
      assert Translate(a + b) == TranslateChar(a[0]) + (Translate(a[1..]) + Translate(b));
    } else {
      assert a + b == b;
    }
  }

  lemma {:induction false} LowerAllAppend(a: string, b: string)
    ensures LowerAll(a + b) == LowerAll(a) + LowerAll(b)
  {
    if a != [] {
      assert (a + b)[0] == a[0] && (a + b)[1..] == a[1..] + b;
      LowerAllAppend(a[1..], b);
      assert LowerAll(a + b) == [Lower(a[0])] + (LowerAll(a[1..]) + LowerAll(b));
    } else {
      assert a + b == b;
    }
  }

  lemma {:induction false} HyphenateSpacesAppend(a: string, b: string)
    ensures HyphenateSpaces(a + b) == HyphenateSpaces(a) + HyphenateSpaces(b)
  {
    if a != [] {
      assert (a + b)[0] == a[0] && (a + b)[1..] == a[1..] + b;
      HyphenateSpacesAppend(a[1..], b);
      var head := [if a[0] == ' ' then '-' else a[0]];
      assert HyphenateSpaces(a + b) == head + (HyphenateSpaces(a[1..]) + HyphenateSpaces(b));
    } else {
      assert a + b == b;
    }
  }

  lemma {:induction false} KeepSlugCharsAppend(a: string, b: string)
    ensures KeepSlugChars(a + b) == KeepSlugChars(a) + KeepSlugChars(b)
  {
    if a != [] {
      assert (a + b)[0] == a[0] && (a + b)[1..] == a[1..] + b;
      KeepSlugCharsAppend(a[1..], b);
      var head := if IsKept(a[0]) then [a[0]] else "";
      assert KeepSlugChars(a + b) == head + (KeepSlugChars(a[1..]) + KeepSlugChars(b));
    } else {
      assert a + b == b;
    }
  }

  /** The filter keeps the characters in their order: a character is kept in place exactly when it is allowed. */
  lemma KeepSlugCharsInsert(a: string, c: char, b: string)
    ensures KeepSlugChars(a + [c] + b) == KeepSlugChars(a) + (if IsKept(c) then [c] else []) + KeepSlugChars(b)
  {
    KeepSlugCharsAppend(a + [c], b);
    KeepSlugCharsAppend(a, [c]);
    assert KeepSlugChars([c]) == (if IsKept(c) then [c] else []) + KeepSlugChars([]);
  }

  /** Slugify works character by character: the slug of a concatenation is the concatenation of the slugs. */
  lemma SlugifyAppend(a: string, b: string)
    ensures Slugify(a + b) == Slugify(a) + Slugify(b)
  {
    TranslateAppend(a, b);
    var ta, tb := Translate(a), Translate(b);
    LowerAllAppend(ta, tb);
    var la, lb := LowerAll(ta), LowerAll(tb);
    HyphenateSpacesAppend(la, lb);
    KeepSlugCharsAppend(HyphenateSpaces(la), HyphenateSpaces(lb));
  }

  lemma {:induction false} KeepSlugCharsKeepsKept(s: string)
    requires forall i :: 0 <= i < |s| ==> IsKept(s[i])
    ensures KeepSlugChars(s) == s
  {
    if s != [] {
      KeepSlugCharsKeepsKept(s[1..]);
    }
  }

  /** The slug of a one-character label is that character's contribution. */
  lemma SlugifyChar(c: char)
    ensures Slugify([c]) == CharSlug(c)
  {
    assert Translate([c]) == TranslateChar(c) + Translate([]);
    assert Translate([c]) == TranslateChar(c);
    if IsNorwegian(c) {
      var ascii := CharSlug(c);
      var t := TranslateChar(c);
      LowerAllSpec(t);
      forall i | 0 <= i < |t| ensures LowerAll(t)[i] == ascii[i] {
        LowerSpec(t[i]);
      }
      assert LowerAll(t) == ascii;
      HyphenateSpacesSpec(ascii);
      assert HyphenateSpaces(ascii) == ascii;
      KeepSlugCharsKeepsKept(ascii);
    } else {
      LowerSpec(c);
      assert LowerAll([c]) == [Lower(c)];
      HyphenateSpacesSpec([Lower(c)]);
      assert HyphenateSpaces([Lower(c)]) == [if c == ' ' then '-' else Lower(c)];
      var h := if c == ' ' then '-' else Lower(c);
      assert KeepSlugChars([h]) == (if IsKept(h) then [h] else []) + KeepSlugChars([]);
    }
  }

  /** The four-stage pipeline and the per-character reference agree on every label. */
  lemma {:induction false} SlugifyMatchesSpec(name: string)
    ensures Slugify(name) == SlugSpec(name)
  {
    if name != [] {
      assert name == [name[0]] + name[1..];
      SlugifyAppend([name[0]], name[1..]);
      SlugifyChar(name[0]);
      SlugifyMatchesSpec(name[1..]);
    }
  }

  /**
   * Each character contributes its fixed ASCII replacement if it is one of the six
   * Norwegian letters, `-` if it is a space, itself lower-cased if it is
   * alphanumeric, `-` or `_`, and nothing otherwise: nothing else is replaced.
   */
  lemma SlugifyInsert(before: string, c: char, after: string)
    ensures Slugify(before + [c] + after) == Slugify(before) + CharSlug(c) + Slugify(after)
    ensures c == ' ' ==> Slugify(before + [c] + after) == Slugify(before) + "-" + Slugify(after)
    ensures !IsKept(c) && c != ' ' && !IsNorwegian(c) ==> Slugify(before + [c] + after) == Slugify(before + after)
  {
    var sb, sc, sa := Slugify(before), CharSlug(c), Slugify(after);
    assert Slugify(before + [c] + after) == sb + sc + sa by {
      SlugifyChar(c);
      SlugifyAppend(before, [c]);
      SlugifyAppend(before + [c], after);
    }
    if c == ' ' {
      assert sc == "-";
    }
    if !IsKept(c) && c != ' ' && !IsNorwegian(c) {
      assert sc == "";
      assert sb + sc + sa == sb + sa;
      SlugifyAppend(before, after);
    }
  }

  lemma {:induction false} SlugSpecAlphabet(name: string)
    ensures forall i :: 0 <= i < |SlugSpec(name)| ==> IsSlugChar(SlugSpec(name)[i])
  {
    if name != [] {
      LowerSpec(name[0]);
      SlugSpecAlphabet(name[1..]);
    }
  }

  /** Every character of a slug is a lower-case alphanumeric, `-` or `_`; in particular no space survives. */
  lemma SlugifyAlphabet(name: string)
    ensures forall i :: 0 <= i < |Slugify(name)| ==> IsSlugChar(Slugify(name)[i])
    ensures ' ' !in Slugify(name) && '/' !in Slugify(name) && '.' !in Slugify(name)
  {
    SlugifyMatchesSpec(name);
    SlugSpecAlphabet(name);
  }

  lemma {:induction false} SlugSpecFixesSlugChars(s: string)
    requires forall i :: 0 <= i < |s| ==> IsSlugChar(s[i])
    ensures SlugSpec(s) == s
  {
    if s != [] {
      LowerSpec(s[0]);
      SlugSpecFixesSlugChars(s[1..]);
    }
  }

  /** A slug is its own slug. */
  lemma SlugifyIdempotent(name: string)
    ensures Slugify(Slugify(name)) == Slugify(name)
  {
    var s := Slugify(name);
    SlugifyAlphabet(name);
    SlugifyMatchesSpec(s);
    SlugSpecFixesSlugChars(s);
  }

  const ImageDir := "/static/content/"
  const ImageExt := ".png"

  /**
   * The image path reported for a status: the slug between the content directory and
   * the `.png` extension. The slug holds neither `/` nor `.`, so the path always names
   * a file directly inside the content directory.
   */
  function ImagePath(status: string): (path: string)
    ensures |ImageDir| + |ImageExt| <= |path|
    ensures ImageDir <= path && path[|path| - |ImageExt|..] == ImageExt
    ensures path[|ImageDir|..|path| - |ImageExt|] == Slugify(status)
    ensures forall i :: |ImageDir| <= i < |path| - |ImageExt| ==> path[i] != '/' && path[i] != '.'
  {
    SlugifyAlphabet(status);
    ImageDir + Slugify(status) + ImageExt
  }
}
