/** The concept normaliser: `_norm` and `_to_en_uri` of conceptnet.py. */
module Normalize {
  import opened Text

  /** The character class `[a-z0-9_]` that survives normalisation. */
  predicate IsIdentChar(c: char) {
    'a' <= c <= 'z' || '0' <= c <= '9' || c == '_'
  }

  predicate IsAlnum(c: char) {
    'a' <= c <= 'z' || '0' <= c <= '9'
  }

  predicate IsIdent(s: string) {
    forall i :: 0 <= i < |s| ==> IsIdentChar(s[i])
  }

  /** `_norm`: strip, lowercase, whitespace runs to `_`, then drop every
      character outside `[a-z0-9_]`. */
  function Norm(s: string): (r: string)
    ensures IsIdent(r)
    ensures NoSpace(r)
  {
    Filter(Collapse(LowerStr(Strip(s)), '_'), IsIdentChar)
  }

  /** `_to_en_uri`: the English concept path for a free-text concept.  The
      concept part is a single path segment. */
  function ToEnUri(concept: string): (r: string)
    ensures StartsWith(r, "/c/en/")
    ensures IsIdent(r[6..])
    ensures '/' !in r[6..]
  {
    "/c/en/" + Norm(concept)
  }

  /** Normalising a normalised identifier changes nothing. */
  lemma NormIdempotent(s: string)
    ensures Norm(Norm(s)) == Norm(s)
  {
    var t := Norm(s);
    assert Stripped(t);
    assert LowerStr(t) == t;
    CollapseOfNoSpace(t, '_');
    FilterAll(t, IsIdentChar);
  }

  /** No letter or digit is lost or invented: apart from `_`, the identifier
      holds exactly the lowercased letters and digits of the input, in order. */
  lemma NormKeepsAlphanumerics(s: string)
    ensures Filter(Norm(s), IsAlnum) == Filter(LowerStr(s), IsAlnum)
  {
    var lowered := LowerStr(Strip(s));
    FilterFilter(Collapse(lowered, '_'), IsIdentChar, IsAlnum);
    CollapseFilter(lowered, '_', IsAlnum);
    StripLower(s);
    FilterStrip(LowerStr(s), IsAlnum);
  }

  /** Case does not matter to the identifier. */
  lemma NormIgnoresCase(s: string)
    ensures Norm(LowerStr(s)) == Norm(s)
  {
    StripLower(s);
    LowerStrIdempotent(Strip(s));
  }

  /** Taking the last path segment of the URI gives back the identifier. */
  lemma UriLastSegment(concept: string)
    ensures AfterLast(ToEnUri(concept), '/') == Norm(concept)
  {
    assert ToEnUri(concept) == "/c/en" + ['/'] + Norm(concept);
    AfterLastOf("/c/en", '/', Norm(concept));
  }

  lemma NormExampleWords()
    ensures Norm("Golden Retriever") == "golden_retriever"
  {
    ExampleLowered();
    ExampleCollapsed();
    ExampleIdent();
    NormBySteps("Golden Retriever", "golden retriever", "golden_retriever");
  }

  /** `Norm` computed stage by stage. */
  lemma NormBySteps(s: string, lowered: string, collapsed: string)
    requires LowerStr(Strip(s)) == lowered
    requires Collapse(lowered, '_') == collapsed
    requires IsIdent(collapsed)
    ensures Norm(s) == collapsed
  {
    FilterAll(collapsed, IsIdentChar);
  }

  lemma ExampleIdent()
    ensures IsIdent("golden_retriever")
  {
  }

  lemma ExampleLowered()
    ensures LowerStr(Strip("Golden Retriever")) == "golden retriever"
  {
    assert Stripped("Golden Retriever");
  }

  lemma ExampleCollapsed()
    ensures Collapse("golden retriever", '_') == "golden_retriever"
  {
    CollapseWordAt("golden retriever", "golden", "retriever", "golden_retriever", '_');
  }

  /** `CollapseWord` for a text and a result given as wholes. */
  lemma CollapseWordAt(s: string, a: string, b: string, r: string, sep: char)
    requires s == a + " " + b && r == a + [sep] + b
    requires NoSpace(a) && NoSpace(b) && b != []
    ensures Collapse(s, sep) == r
  {
    CollapseWord(a, b, sep);
  }

  lemma NormExampleAccent()
    ensures Norm("café!!") == "caf"
  {
    var junk := "é!!";
    assert forall i :: 0 <= i < |junk| ==> !IsIdentChar(junk[i]) && !('A' <= junk[i] <= 'Z');
    assert NoSpace(junk);
    NormOfIdentPrefix("caf", junk);
    assert "caf" + junk == "café!!";
  }

  /** Trailing characters outside the class, with no whitespace, vanish. */
  lemma NormOfIdentPrefix(a: string, junk: string)
    requires IsIdent(a)
    requires junk != [] && NoSpace(junk)
    requires forall i :: 0 <= i < |junk| ==> !IsIdentChar(junk[i]) && !('A' <= junk[i] <= 'Z')
    ensures Norm(a + junk) == a
  {
    var c := a + junk;
    assert Stripped(c);
    assert LowerStr(c) == c;
    assert NoSpace(c);
    CollapseOfNoSpace(c, '_');
    FilterAppend(a, junk, IsIdentChar);
    FilterAll(a, IsIdentChar);
    FilterNone(junk, IsIdentChar);
  }
}
