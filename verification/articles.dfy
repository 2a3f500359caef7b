/** The a/an heuristics of conceptnet.py: `_choose_article` and
    `_maybe_article`. */
module Articles {
  import opened Text

  predicate IsVowel(c: char) {
    c in "aeiou"
  }

  /** `_choose_article`: "an" when the phrase's first non-blank character,
      lowercased, is a vowel letter, otherwise "a". */
  function ChooseArticle(phrase: string): (r: string)
    ensures r == "a" || r == "an"
    ensures r == "an" <==> exists i :: FirstNonBlanks(phrase, i) && IsVowel(Lower(phrase[i]))
  {
    StripHead(phrase);
    var w := LowerStr(Strip(phrase));
    if w == [] then "a" else if IsVowel(w[0]) then "an" else "a"
  }

  /** The leading words that already read as a determiner. */
  const Determiners: seq<string> := ["a ", "an ", "the ", "this ", "that ", "these ", "those "]

  predicate HasDeterminer(lower: string) {
    exists d :: d in Determiners && StartsWith(lower, d)
  }

  /** The crude plural test: ends in "s" but not in "ss" or "us". */
  predicate LooksPlural(lower: string) {
    EndsWith(lower, "s") && !EndsWith(lower, "ss") && !EndsWith(lower, "us")
  }

  /** A stripped noun phrase that gets no article: empty, already
      determined, or plural-looking. */
  predicate Bare(n: string) {
    n == [] || HasDeterminer(LowerStr(n)) || LooksPlural(LowerStr(n))
  }

  lemma ChooseArticleStripped(n: string)
    requires n != [] && Stripped(n)
    ensures ChooseArticle(n) == "an" <==> IsVowel(Lower(n[0]))
  {
    StripHead(n);
    assert FirstNonBlanks(n, 0);
  }

  lemma ArticledStripped(a: string, n: string)
    requires a != [] && n != [] && Stripped(n) && !IsSpace(a[0])
    ensures Stripped(a + " " + n)
  {
    var r := a + " " + n;
    assert r[0] == a[0];
    assert r[|r| - 1] == n[|n| - 1];
  }

  /** `_choose_article(n) + " " + n` for a stripped, non-empty phrase. */
  function Articled(n: string): (r: string)
    requires n != [] && Stripped(n)
    ensures r == "a " + n || r == "an " + n
    ensures r == "an " + n <==> IsVowel(Lower(n[0]))
    ensures Stripped(r)
  {
    var a := ChooseArticle(n);
    ChooseArticleStripped(n);
    ArticledStripped(a, n);
    ArticledForms(a, n);
    a + " " + n
  }

  lemma ArticledForms(a: string, n: string)
    requires a == "a" || a == "an"
    ensures a + " " + n == "a " + n || a + " " + n == "an " + n
    ensures a + " " + n == "an " + n <==> a == "an"
  {
    if a == "a" {
      assert (a + " " + n)[1] == ' ' != ("an " + n)[1];
    } else {
      assert a + " " + n == "an " + n;
    }
  }

  /** `_maybe_article`: the stripped noun, with "a " or "an " in front unless
      it is bare. */
  function MaybeArticle(noun: string): (r: string)
    ensures r == Strip(noun) || r == "a " + Strip(noun) || r == "an " + Strip(noun)
    ensures r == Strip(noun) <==> Bare(Strip(noun))
    ensures r == "an " + Strip(noun) <==> !Bare(Strip(noun)) && IsVowel(Lower(Strip(noun)[0]))
    ensures Stripped(r)
  {
    var n := Strip(noun);
    if n == [] then n
    else
      var lower := LowerStr(n);
      if HasDeterminer(lower) then n
      else if LooksPlural(lower) then n
      else
        assert |Articled(n)| > |n|;
        Articled(n)
  }

  /** A phrase led by "a " or "an " is bare and already stripped. */
  lemma LeadingArticleIsBare(d: string, n: string)
    requires d == "a " || d == "an "
    requires n != [] && Stripped(n)
    ensures Stripped(d + n) && Bare(d + n)
  {
    var r := d + n;
    assert r[0] == 'a';
    assert r[|r| - 1] == n[|n| - 1];
    var lower := LowerStr(r);
    assert lower[..|d|] == d;
    assert StartsWith(lower, d);
  }

  /** An articled phrase is never articled again. */
  lemma MaybeArticleIdempotent(noun: string)
    ensures MaybeArticle(MaybeArticle(noun)) == MaybeArticle(noun)
  {
    var n := Strip(noun);
    var r := MaybeArticle(noun);
    if r == "a " + n {
      LeadingArticleIsBare("a ", n);
    } else if r == "an " + n {
      LeadingArticleIsBare("an ", n);
    }
  }

  /** A lowercase word with no determiner, not ending in "s", gets an
      article chosen by its first letter. */
  lemma ArticledWord(w: string)
    requires w != [] && NoSpace(w) && LowerStr(w) == w
    requires w[|w| - 1] != 's'
    ensures MaybeArticle(w) == (if IsVowel(w[0]) then "an " else "a ") + w
  {
    assert Stripped(w);
    forall d | d in Determiners
      ensures !StartsWith(w, d)
    {
      assert |d| > 0 && d[|d| - 1] == ' ';
      assert |d| > |w| || w[|d| - 1] != d[|d| - 1];
    }
    assert !EndsWith(w, "s") by {
      assert w[|w| - 1..] == [w[|w| - 1]];
    }
  }

  lemma MaybeArticleVowel()
    ensures MaybeArticle("apple") == "an apple"
  {
    var w := "apple";
    assert w[0] == 'a' && IsVowel(w[0]);
    assert w[4] == 'e';
    assert NoSpace(w);
    assert LowerStr(w) == w;
    ArticledWord(w);
    assert "an " + w == "an apple";
  }

  lemma MaybeArticleConsonant()
    ensures MaybeArticle("dog") == "a dog"
  {
    var w := "dog";
    assert w[0] == 'd';
    assert w[2] == 'g';
    assert NoSpace(w);
    assert LowerStr(w) == w;
    ArticledWord(w);
  }

  lemma MaybeArticleBare()
    ensures MaybeArticle("the park") == "the park"
  {
    assert Stripped("the park");
    assert LowerStr("the park") == "the park";
    assert StartsWith("the park", "the ");
  }

  lemma MaybeArticlePlural()
    ensures MaybeArticle("cats") == "cats"
  {
    assert Stripped("cats");
    assert LowerStr("cats") == "cats";
    assert "cats"[3..] == "s";
    assert "cats"[2..] == "ts";
  }
}
