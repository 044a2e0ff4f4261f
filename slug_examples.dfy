/**
 * Two titles worked through `slugify` stage by stage: lower-casing,
 * trimming, hyphenating whitespace runs, dropping non-word characters and
 * collapsing hyphen runs. Each stage is its own lemma over the text it sees.
 */
module SlugExamples {
  import opened Text
  import opened Slug

  // "  Hello, World!! " becomes "hello-world".

  lemma HelloLowerA(s: string)
    requires s == "  Hello, "
    ensures ToLower(s) == "  hello, "
  {
    var l := ToLower(s);
    assert l[0] == ' ' && l[1] == ' ' && l[2] == 'h' && l[3] == 'e' && l[4] == 'l';
    assert l[5] == 'l' && l[6] == 'o' && l[7] == ',' && l[8] == ' ';
  }

  lemma HelloLowerB(s: string)
    requires s == "World!! "
    ensures ToLower(s) == "world!! "
  {
    var l := ToLower(s);
    assert l[0] == 'w' && l[1] == 'o' && l[2] == 'r' && l[3] == 'l';
    assert l[4] == 'd' && l[5] == '!' && l[6] == '!' && l[7] == ' ';
  }

  lemma HelloLowerJoin(a: string, b: string)
    requires a == "  Hello, " && b == "World!! "
    ensures ToLower(a + b) == "  hello, world!! "
  {
    HelloLowerA(a);
    HelloLowerB(b);
    ToLowerAppend(a, b);
  }

  lemma HelloLower(s: string)
    requires s == "  Hello, World!! "
    ensures ToLower(s) == "  hello, world!! "
  {
    var a, b := s[..9], s[9..];
    assert a == "  Hello, " && b == "World!! ";
    assert s == a + b;
    HelloLowerJoin(a, b);
  }

  lemma HelloTrim(s: string)
    requires s == "  hello, world!! "
    ensures Trim(s) == "hello, world!!"
  {
    var t := s[2..];
    assert s[1..][1..] == t && t[0] == 'h';
    assert TrimStart(t) == t;
    assert TrimStart(s[1..]) == t;
    var u := t[..|t| - 1];
    assert u == "hello, world!!" && u[|u| - 1] == '!';
    assert TrimEnd(u) == u;
    assert TrimEnd(t) == u;
  }

  lemma HelloHyphen(s: string)
    requires s == "hello, world!!"
    ensures HyphenateSpaces(s) == "hello,-world!!"
  {
    var a, e := s[..6], s[7..];
    assert a == "hello," && e == "world!!";
    assert s == a + [' '] + e;
    HyphenateSpacesKeeps(a);
    HyphenateOneSpace(a, e);
  }

  lemma HelloWordsHead(x: string)
    requires x == "hello,"
    ensures RemoveNonWord(x) == "hello"
  {
    var a, comma := x[..5], x[5..];
    assert x == a + comma && comma[1..] == [];
    RemoveNonWordKeeps(a);
    RemoveNonWordAppend(a, comma);
  }

  lemma HelloWordsTail(x: string)
    requires x == "-world!!"
    ensures RemoveNonWord(x) == "-world"
  {
    var a, bang := x[..6], x[6..];
    assert x == a + bang && bang[1..][1..] == [];
    assert RemoveNonWord(bang[1..]) == [];
    assert RemoveNonWord(bang) == [];
    RemoveNonWordKeeps(a);
    RemoveNonWordAppend(a, bang);
  }

  lemma HelloWords(s: string)
    requires s == "hello,-world!!"
    ensures RemoveNonWord(s) == "hello-world"
  {
    var a, b := s[..6], s[6..];
    assert s == a + b;
    HelloWordsHead(a);
    HelloWordsTail(b);
    RemoveNonWordAppend(a, b);
  }

  lemma HelloCollapse(s: string)
    requires s == "hello-world"
    ensures CollapseHyphens(s) == s
  {
    assert NoDoubleHyphen(s);
    CollapseHyphensKeeps(s);
  }

  /** Surrounding blanks go, the inner blank becomes a hyphen, the punctuation is dropped. */
  lemma SlugifyHello(text: string)
    requires text == "  Hello, World!! "
    ensures Slugify(text) == "hello-world"
  {
    var lower := ToLower(text);
    HelloLower(text);
    var trimmed := Trim(lower);
    HelloTrim(lower);
    var h := HyphenateSpaces(trimmed);
    HelloHyphen(trimmed);
    HelloWords(h);
    HelloCollapse(RemoveNonWord(h));
  }

  // "C++ & Rust" becomes "c-rust".

  lemma RustLower(s: string)
    requires s == "C++ & Rust"
    ensures ToLower(s) == "c++ & rust"
  {
    var l := ToLower(s);
    assert l[0] == 'c' && l[1] == '+' && l[2] == '+' && l[3] == ' ' && l[4] == '&';
    assert l[5] == ' ' && l[6] == 'r' && l[7] == 'u' && l[8] == 's' && l[9] == 't';
  }

  lemma RustHyphens(s: string)
    requires s == "c++ & rust"
    ensures HyphenateSpaces(s) == "c++-&-rust"
  {
    var a, b, e := s[..3], s[4..5], s[6..];
    assert a == "c++" && b == "&" && e == "rust";
    assert s == a + [' '] + b + [' '] + e;
    HyphenateSpacesKeeps(a);
    HyphenateOneSpace(a, b);
    HyphenateOneSpace(a + [' '] + b, e);
  }

  lemma RustWordsHead(x: string)
    requires x == "c++-&-"
    ensures RemoveNonWord(x) == "c--"
  {
    assert x[1..][1..] == x[2..] && x[2..][1..] == x[3..] && x[3..][1..] == x[4..];
    assert x[4..][1..] == x[5..] && x[5..][1..] == [];
    assert RemoveNonWord(x[5..]) == "-";
    assert RemoveNonWord(x[4..]) == "-";
    assert RemoveNonWord(x[3..]) == "--";
    assert RemoveNonWord(x[1..]) == "--";
  }

  lemma RustWords(s: string)
    requires s == "c++-&-rust"
    ensures RemoveNonWord(s) == "c--rust"
  {
    var x, e := s[..6], s[6..];
    assert s == x + e;
    RustWordsHead(x);
    RemoveNonWordKeeps(e);
    RemoveNonWordAppend(x, e);
  }

  lemma RustCollapse(s: string)
    requires s == "c--rust"
    ensures CollapseHyphens(s) == "c-rust"
  {
    var r := s[3..];
    assert r == "rust" && s[1..][1..] == s[2..] && s[2..][1..] == r;
    CollapseHyphensKeeps(r);
    assert CollapseHyphens(s[2..]) == "-" + r;
    assert CollapseHyphens(s[1..]) == "-" + r;
  }

  /** The symbols are dropped and the two hyphens they leave between words collapse into one. */
  lemma SlugifyRust(text: string)
    requires text == "C++ & Rust"
    ensures Slugify(text) == "c-rust"
  {
    var lower := ToLower(text);
    RustLower(text);
    var trimmed := Trim(lower);
    var h := HyphenateSpaces(trimmed);
    RustHyphens(trimmed);
    RustWords(h);
    RustCollapse(RemoveNonWord(h));
  }
}
