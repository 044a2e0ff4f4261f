/** `slugify` of `lib/docs.ts`: a title turned into a URL token, as a chain of string rewrites. */
module Slug {
  import opened Text

  /** The characters a slug is made of: `[a-z0-9_-]`. */
  predicate IsSlugChar(c: char) {
    IsLower(c) || IsDigit(c) || c == '_' || c == '-'
  }

  /** No two hyphens in a row. */
  predicate NoDoubleHyphen(s: string) {
    forall i :: 0 <= i < |s| - 1 ==> !(s[i] == '-' && s[i + 1] == '-')
  }

  /** What `Slugify` produces: slug characters only, never two hyphens in a row. */
  predicate IsSlug(s: string) {
    (forall c :: c in s ==> IsSlugChar(c)) && NoDoubleHyphen(s)
  }

  /** `replace(/\s+/g, '-')`: each run of whitespace becomes a single hyphen. */
  function HyphenateSpaces(s: string): string {
    if s == [] then []
    else if IsSpace(s[0]) then
      if |s| > 1 && IsSpace(s[1]) then HyphenateSpaces(s[1..]) else "-" + HyphenateSpaces(s[1..])
    else [s[0]] + HyphenateSpaces(s[1..])
  }

  /** `replace(/[^\w\-]+/g, '')`: drops every character that is neither `\w` nor `-`. */
  function RemoveNonWord(s: string): string {
    if s == [] then []
    else if IsWordChar(s[0]) || s[0] == '-' then [s[0]] + RemoveNonWord(s[1..])
    else RemoveNonWord(s[1..])
  }

  /** `replace(/\-\-+/g, '-')`: each run of two or more hyphens becomes a single hyphen. */
  function CollapseHyphens(s: string): string {
    if s == [] then []
    else if s[0] == '-' && |s| > 1 && s[1] == '-' then CollapseHyphens(s[1..])
    else [s[0]] + CollapseHyphens(s[1..])
  }

  /** Hyphenation leaves no whitespace and introduces no character other than `-`. */
  lemma {:induction false} HyphenateSpacesShape(s: string)
    ensures forall c :: c in HyphenateSpaces(s) ==> !IsSpace(c) && (c in s || c == '-')
  {
    if s != [] {
      HyphenateSpacesShape(s[1..]);
    }
  }

  /** A string without whitespace is left as it is by hyphenation. */
  lemma {:induction false} HyphenateSpacesKeeps(s: string)
    requires forall c :: c in s ==> !IsSpace(c)
    ensures HyphenateSpaces(s) == s
  {
    if s != [] {
      assert s[0] in s;
      HyphenateSpacesKeeps(s[1..]);
    }
  }

  /** Hyphenation works piecewise when the cut does not split a whitespace run. */
  lemma {:induction false} HyphenateSpacesAppend(a: string, b: string)
    requires a == [] || b == [] || !IsSpace(a[|a| - 1]) || !IsSpace(b[0])
    ensures HyphenateSpaces(a + b) == HyphenateSpaces(a) + HyphenateSpaces(b)
  {
    if a == [] {
      assert a + b == b;
    } else {
      assert (a + b)[0] == a[0] && (a + b)[1..] == a[1..] + b;
      assert |a| > 1 ==> (a + b)[1] == a[1];
      assert |a| == 1 && b != [] ==> (a + b)[1] == b[0];
      HyphenateSpacesAppend(a[1..], b);
    }
  }

  /** A single blank between text and a blank-free word becomes one hyphen. */
  lemma HyphenateOneSpace(x: string, e: string)
    requires x == [] || !IsSpace(x[|x| - 1])
    requires forall c :: c in e ==> !IsSpace(c)
    ensures HyphenateSpaces(x + [' '] + e) == HyphenateSpaces(x) + ['-'] + e
  {
    assert x + [' '] + e == x + ([' '] + e);
    HyphenateSpacesAppend(x, [' '] + e);
    HyphenateSpacesKeeps(e);
    assert ([' '] + e)[1..] == e;
    assert e != [] ==> e[0] in e;
  }

  /** What survives the removal is word characters and hyphens of the input. */
  lemma {:induction false} RemoveNonWordShape(s: string)
    ensures forall c :: c in RemoveNonWord(s) ==> (IsWordChar(c) || c == '-') && c in s
  {
    if s != [] {
      RemoveNonWordShape(s[1..]);
    }
  }

  /** A string of word characters and hyphens is left as it is by the removal. */
  lemma {:induction false} RemoveNonWordKeeps(s: string)
    requires forall c :: c in s ==> IsWordChar(c) || c == '-'
    ensures RemoveNonWord(s) == s
  {
    if s != [] {
      assert s[0] in s;
      RemoveNonWordKeeps(s[1..]);
    }
  }

  /** The removal works piecewise. */
  lemma {:induction false} RemoveNonWordAppend(a: string, b: string)
    ensures RemoveNonWord(a + b) == RemoveNonWord(a) + RemoveNonWord(b)
  {
    if a == [] {
      assert a + b == b;
    } else {
      assert (a + b)[0] == a[0] && (a + b)[1..] == a[1..] + b;
      RemoveNonWordAppend(a[1..], b);
    }
  }

  /**
   * Collapsing leaves no two hyphens in a row, introduces no character and
   * keeps the first character.
   */
  lemma {:induction false} CollapseHyphensShape(s: string)
    ensures NoDoubleHyphen(CollapseHyphens(s))
    ensures forall c :: c in CollapseHyphens(s) ==> c in s
    ensures s != [] ==> CollapseHyphens(s) != [] && CollapseHyphens(s)[0] == s[0]
  {
    if s != [] {
      CollapseHyphensShape(s[1..]);
    }
  }

  /** A string without two hyphens in a row is left as it is by collapsing. */
  lemma {:induction false} CollapseHyphensKeeps(s: string)
    requires NoDoubleHyphen(s)
    ensures CollapseHyphens(s) == s
  {
    if s != [] {
      CollapseHyphensKeeps(s[1..]);
    }
  }

  /**
   * `slugify`: lower-case, trim, hyphenate whitespace runs, drop non-word
   * characters, collapse hyphen runs. The result is always a slug, so it holds
   * no whitespace and no upper-case letter.
   */
  function Slugify(text: string): (slug: string)
    ensures IsSlug(slug)
    ensures forall c :: c in slug ==> !IsSpace(c) && !IsUpper(c)
  {
    var lower := ToLower(text);
    var trimmed := Trim(lower);
    var hyphenated := HyphenateSpaces(trimmed);
    var words := RemoveNonWord(hyphenated);
    HyphenateSpacesShape(trimmed);
    RemoveNonWordShape(hyphenated);
    CollapseHyphensShape(words);
    CollapseHyphens(words)
  }

  /** Slug characters are word characters or hyphens, never whitespace or upper case. */
  lemma SlugChars(s: string)
    requires IsSlug(s)
    ensures forall c :: c in s ==> !IsSpace(c) && !IsUpper(c) && (IsWordChar(c) || c == '-')
  {
  }

  /** Lower-casing and trimming leave a slug as it is. */
  lemma SlugLowerTrim(s: string)
    requires IsSlug(s)
    ensures Trim(ToLower(s)) == s
  {
    SlugChars(s);
    assert forall i :: 0 <= i < |s| ==> s[i] in s;
    ToLowerOfLower(s);
    assert s != [] ==> s[0] in s && s[|s| - 1] in s;
  }

  /** Every stage of `Slugify` leaves a slug as it is. */
  lemma SlugifyFixesSlugs(s: string)
    requires IsSlug(s)
    ensures Slugify(s) == s
  {
    SlugLowerTrim(s);
    SlugChars(s);
    HyphenateSpacesKeeps(s);
    RemoveNonWordKeeps(s);
    CollapseHyphensKeeps(s);
  }

  /** `slugify(slugify(s)) == slugify(s)`. */
  lemma SlugifyIdempotent(text: string)
    ensures Slugify(Slugify(text)) == Slugify(text)
  {
    SlugifyFixesSlugs(Slugify(text));
  }

  /** `toLowerCase` works piecewise. */
  lemma {:induction false} ToLowerAppend(a: string, b: string)
    ensures ToLower(a + b) == ToLower(a) + ToLower(b)
  {
    if a == [] {
      assert a + b == b;
    } else {
      assert (a + b)[0] == a[0] && (a + b)[1..] == a[1..] + b;
      ToLowerAppend(a[1..], b);
    }
  }
}
