/** The string operations the script takes from Python's `str` methods and
    from `re.sub`, over ASCII.  Case mappings touch only `A`-`Z` and `a`-`z`;
    every other character passes through unchanged. */
module Text {

  /** Python's `str.isspace` and the regex class `\s`, restricted to ASCII:
      the space, the controls TAB through CR, and the separators 0x1C-0x1F. */
  predicate IsSpace(c: char) {
    c == ' ' || ('\t' <= c <= '\r') || ('\U{1C}' <= c <= '\U{1F}')
  }

  function Lower(c: char): (d: char)
    ensures IsSpace(d) <==> IsSpace(c)
    ensures !('A' <= d <= 'Z')
  {
    if 'A' <= c <= 'Z' then (c as int + 32) as char else c
  }

  function Upper(c: char): (d: char)
    ensures IsSpace(d) <==> IsSpace(c)
  {
    if 'a' <= c <= 'z' then (c as int - 32) as char else c
  }

  /** `str.lower()`. */
  function LowerStr(s: string): (r: string)
    ensures |r| == |s|
    ensures forall i :: 0 <= i < |s| ==> r[i] == Lower(s[i])
  {
    seq(|s|, i requires 0 <= i < |s| => Lower(s[i]))
  }

  /** `str.replace(a, b)` for single characters. */
  function Replace(s: string, a: char, b: char): (r: string)
    ensures |r| == |s|
    ensures forall i :: 0 <= i < |s| ==> r[i] == if s[i] == a then b else s[i]
  {
    seq(|s|, i requires 0 <= i < |s| => if s[i] == a then b else s[i])
  }

  predicate StartsWith(s: string, p: string) {
    |p| <= |s| && s[..|p|] == p
  }

  predicate EndsWith(s: string, p: string) {
    |p| <= |s| && s[|s| - |p|..] == p
  }

  /** No whitespace at either end. */
  predicate Stripped(s: string) {
    s == [] || (!IsSpace(s[0]) && !IsSpace(s[|s| - 1]))
  }

  predicate NoSpace(s: string) {
    forall i :: 0 <= i < |s| ==> !IsSpace(s[i])
  }

  /** `str.lstrip()`: the suffix left after dropping leading whitespace. */
  function TrimLeft(s: string): (r: string)
    ensures |r| <= |s| && r == s[|s| - |r|..]
    ensures forall i :: 0 <= i < |s| - |r| ==> IsSpace(s[i])
    ensures r == [] || !IsSpace(r[0])
    ensures |s| > 0 && IsSpace(s[0]) ==> |r| < |s|
  {
    if |s| > 0 && IsSpace(s[0]) then TrimLeft(s[1..]) else s
  }

  /** `str.rstrip()`: the prefix left after dropping trailing whitespace. */
  function TrimRight(s: string): (r: string)
    ensures |r| <= |s| && r == s[..|r|]
    ensures forall i :: |r| <= i < |s| ==> IsSpace(s[i])
    ensures r == [] || !IsSpace(r[|r| - 1])
  {
    if |s| > 0 && IsSpace(s[|s| - 1]) then TrimRight(s[..|s| - 1]) else s
  }

  /** `str.strip()` with no argument. */
  function Strip(s: string): (r: string)
    ensures Stripped(r)
    ensures Stripped(s) ==> r == s
    ensures r == [] <==> forall i :: 0 <= i < |s| ==> IsSpace(s[i])
  {
    TrimRight(TrimLeft(s))
  }

  /** Stripping invents no character. */
  lemma StripKeeps(s: string, c: char)
    requires c in Strip(s)
    ensures c in s
  {
    var t := TrimLeft(s);
    var r := TrimRight(t);
    var i :| 0 <= i < |r| && r[i] == c;
    assert t[i] == c;
    assert s[|s| - |t| + i] == c;
  }

  /** `i` is the position of the first non-whitespace character of `s`. */
  predicate FirstNonBlanks(s: string, i: int) {
    0 <= i < |s| && !IsSpace(s[i]) && forall j :: 0 <= j < i ==> IsSpace(s[j])
  }

  /** The stripped text starts at the first non-whitespace character, and
      that position is unique. */
  lemma StripHead(s: string)
    ensures forall i :: FirstNonBlanks(s, i) ==> i == |s| - |TrimLeft(s)|
    ensures Strip(s) == [] ==> forall i :: !FirstNonBlanks(s, i)
    ensures Strip(s) != [] ==> FirstNonBlanks(s, |s| - |TrimLeft(s)|) && Strip(s)[0] == s[|s| - |TrimLeft(s)|]
  {
    var t := TrimLeft(s);
    var k := |s| - |t|;
    forall i | FirstNonBlanks(s, i)
      ensures i == k
    {
    }
    if Strip(s) != [] {
      assert t != [];
      assert t[0] == s[k];
    }
  }

  lemma StripIdempotent(s: string)
    ensures Strip(Strip(s)) == Strip(s)
  {
  }

  /** The characters of `s` that `keep` accepts, in order. */
  function Filter(s: string, keep: char -> bool): (r: string)
    ensures forall i :: 0 <= i < |r| ==> keep(r[i])
    ensures |r| <= |s|
  {
    if s == [] then []
    else (if keep(s[0]) then [s[0]] else []) + Filter(s[1..], keep)
  }

  lemma {:induction false} FilterAppend(a: string, b: string, keep: char -> bool)
    ensures Filter(a + b, keep) == Filter(a, keep) + Filter(b, keep)
  {
    if a != [] {
      var c, rest := a[0], a[1..];
      assert a == [c] + rest;
      assert a + b == [c] + (rest + b);
      FilterAppend(rest, b, keep);
      FilterCons(c, rest + b, keep);
      FilterCons(c, rest, keep);
      var h := if keep(c) then [c] else [];
      assert h + (Filter(rest, keep) + Filter(b, keep)) == (h + Filter(rest, keep)) + Filter(b, keep);
    } else {
      assert a + b == b;
    }
  }

  lemma FilterCons(c: char, s: string, keep: char -> bool)
    ensures Filter([c] + s, keep) == (if keep(c) then [c] else []) + Filter(s, keep)
  {
    assert ([c] + s)[1..] == s;
  }


  lemma {:induction false} FilterNone(s: string, keep: char -> bool)
    requires forall i :: 0 <= i < |s| ==> !keep(s[i])
    ensures Filter(s, keep) == []
  {
    if s != [] {
      FilterNone(s[1..], keep);
    }
  }

  lemma {:induction false} FilterAll(s: string, keep: char -> bool)
    requires forall i :: 0 <= i < |s| ==> keep(s[i])
    ensures Filter(s, keep) == s
  {
    if s != [] {
      FilterAll(s[1..], keep);
    }
  }

  /** Filtering by a weaker test first changes nothing. */
  lemma {:induction false} FilterFilter(s: string, weak: char -> bool, strong: char -> bool)
    requires forall c :: strong(c) ==> weak(c)
    ensures Filter(Filter(s, weak), strong) == Filter(s, strong)
  {
    if s != [] {
      FilterFilter(s[1..], weak, strong);
      var h := if weak(s[0]) then [s[0]] else [];
      FilterAppend(h, Filter(s[1..], weak), strong);
    }
  }

  predicate NotSpace(c: char) {
    !IsSpace(c)
  }

  /** The non-whitespace characters of `s`, in order. */
  function NonBlanks(s: string): (r: string)
    ensures NoSpace(r)
  {
    Filter(s, NotSpace)
  }

  /** Stripping removes only characters that `keep` rejects. */
  lemma FilterStrip(s: string, keep: char -> bool)
    requires forall c :: IsSpace(c) ==> !keep(c)
    ensures Filter(Strip(s), keep) == Filter(s, keep)
  {
    FilterTrimLeft(s, keep);
    FilterTrimRight(TrimLeft(s), keep);
  }

  lemma FilterTrimLeft(s: string, keep: char -> bool)
    requires forall c :: IsSpace(c) ==> !keep(c)
    ensures Filter(TrimLeft(s), keep) == Filter(s, keep)
  {
    var t := TrimLeft(s);
    var lead := s[..|s| - |t|];
    assert s == lead + t;
    assert forall i :: 0 <= i < |lead| ==> IsSpace(lead[i]);
    FilterAppend(lead, t, keep);
    FilterNone(lead, keep);
  }

  lemma FilterTrimRight(t: string, keep: char -> bool)
    requires forall c :: IsSpace(c) ==> !keep(c)
    ensures Filter(TrimRight(t), keep) == Filter(t, keep)
  {
    var u := TrimRight(t);
    var trail := t[|u|..];
    assert t == u + trail;
    assert forall i :: 0 <= i < |trail| ==> IsSpace(trail[i]);
    FilterAppend(u, trail, keep);
    FilterNone(trail, keep);
  }

  /** `re.sub(r"\s+", sep, s)`: every maximal run of whitespace becomes one
      `sep`. */
  function Collapse(s: string, sep: char): (r: string)
    decreases |s|
  {
    if |s| == 0 then []
    else if IsSpace(s[0]) then [sep] + Collapse(TrimLeft(s), sep)
    else [s[0]] + Collapse(s[1..], sep)
  }

  lemma CollapseHead(s: string, sep: char)
    requires s != [] && !IsSpace(s[0])
    ensures Collapse(s, sep) != [] && Collapse(s, sep)[0] == s[0]
  {
  }

  lemma ConsSpaced(x: char, c: string)
    requires SingleSpaced(c)
    requires IsSpace(x) ==> c == [] || !IsSpace(c[0])
    ensures SingleSpaced([x] + c)
  {
    var r := [x] + c;
    forall i | 0 <= i < |r| - 1
      ensures !(IsSpace(r[i]) && IsSpace(r[i + 1]))
    {
      if i > 0 {
        assert r[i] == c[i - 1] && r[i + 1] == c[i];
      }
    }
  }

  lemma ConsBlanks(x: char, c: string)
    requires OnlyBlanks(c)
    requires IsSpace(x) ==> x == ' '
    ensures OnlyBlanks([x] + c)
  {
    var r := [x] + c;
    assert forall i :: 1 <= i < |r| ==> r[i] == c[i - 1];
  }

  /** A run of whitespace leaves exactly one separator behind. */
  lemma {:induction false} CollapseSpaced(s: string)
    ensures SingleSpaced(Collapse(s, ' '))
    ensures OnlyBlanks(Collapse(s, ' '))
    decreases |s|
  {
    if |s| == 0 {
    } else if IsSpace(s[0]) {
      var t := TrimLeft(s);
      CollapseSpaced(t);
      if t != [] {
        CollapseHead(t, ' ');
      }
      ConsSpaced(' ', Collapse(t, ' '));
      ConsBlanks(' ', Collapse(t, ' '));
    } else {
      CollapseSpaced(s[1..]);
      ConsSpaced(s[0], Collapse(s[1..], ' '));
      ConsBlanks(s[0], Collapse(s[1..], ' '));
    }
  }

  lemma SliceSpaced(s: string, a: int, b: int)
    requires 0 <= a <= b <= |s|
    requires SingleSpaced(s) && OnlyBlanks(s)
    ensures SingleSpaced(s[a..b]) && OnlyBlanks(s[a..b])
  {
    var r := s[a..b];
    forall i | 0 <= i < |r| - 1
      ensures !(IsSpace(r[i]) && IsSpace(r[i + 1]))
    {
      assert r[i] == s[a + i] && r[i + 1] == s[a + i + 1];
    }
    forall i | 0 <= i < |r| && IsSpace(r[i])
      ensures r[i] == ' '
    {
      assert r[i] == s[a + i];
    }
  }

  /** Stripping keeps single spacing and blank-only whitespace. */
  lemma StripSpaced(s: string)
    requires SingleSpaced(s) && OnlyBlanks(s)
    ensures SingleSpaced(Strip(s)) && OnlyBlanks(Strip(s))
  {
    var t := TrimLeft(s);
    var k := |s| - |t|;
    SliceSpaced(s, k, |s|);
    var u := TrimRight(t);
    SliceSpaced(t, 0, |u|);
  }

  /** With a non-whitespace separator the result holds no whitespace at all. */
  lemma {:induction false} CollapseNoSpace(s: string, sep: char)
    requires !IsSpace(sep)
    ensures NoSpace(Collapse(s, sep))
    decreases |s|
  {
    if |s| == 0 {
    } else if IsSpace(s[0]) {
      CollapseNoSpace(TrimLeft(s), sep);
    } else {
      CollapseNoSpace(s[1..], sep);
    }
  }

  /** Collapsing changes only characters that `keep` rejects. */
  lemma {:induction false} CollapseFilter(s: string, sep: char, keep: char -> bool)
    requires !keep(sep)
    requires forall c :: IsSpace(c) ==> !keep(c)
    ensures Filter(Collapse(s, sep), keep) == Filter(s, keep)
    decreases |s|
  {
    if |s| == 0 {
    } else if IsSpace(s[0]) {
      var t := TrimLeft(s);
      CollapseFilter(t, sep, keep);
      FilterAppend([sep], Collapse(t, sep), keep);
      assert s == s[..|s| - |t|] + t;
      FilterAppend(s[..|s| - |t|], t, keep);
      FilterNone(s[..|s| - |t|], keep);
    } else {
      CollapseFilter(s[1..], sep, keep);
      FilterAppend([s[0]], Collapse(s[1..], sep), keep);
    }
  }

  lemma {:induction false} CollapseOfNoSpace(s: string, sep: char)
    requires NoSpace(s)
    ensures Collapse(s, sep) == s
  {
    if s != [] {
      CollapseOfNoSpace(s[1..], sep);
    }
  }

  /** No two whitespace characters are adjacent. */
  predicate SingleSpaced(s: string) {
    forall i :: 0 <= i < |s| - 1 ==> !(IsSpace(s[i]) && IsSpace(s[i + 1]))
  }

  /** The only whitespace character present is the plain blank. */
  predicate OnlyBlanks(s: string) {
    forall i :: 0 <= i < |s| && IsSpace(s[i]) ==> s[i] == ' '
  }

  /** `re.sub(r"\s+", " ", s).strip()`, the cleanup of a rendered sentence. */
  function Tidy(s: string): (r: string)
    ensures Stripped(r)
    ensures SingleSpaced(r)
    ensures OnlyBlanks(r)
    ensures NonBlanks(r) == NonBlanks(s)
  {
    CollapseSpaced(s);
    StripSpaced(Collapse(s, ' '));
    CollapseFilter(s, ' ', NotSpace);
    FilterStrip(Collapse(s, ' '), NotSpace);
    Strip(Collapse(s, ' '))
  }

  /** `s.split(c)[-1]`: the text after the last `c`, or all of `s` when it
      holds no `c`. */
  function AfterLast(s: string, c: char): (r: string)
    ensures c !in r
    ensures |r| <= |s| && r == s[|s| - |r|..]
    ensures |r| == |s| || s[|s| - |r| - 1] == c
  {
    if s == [] then []
    else if s[|s| - 1] == c then []
    else AfterLast(s[..|s| - 1], c) + [s[|s| - 1]]
  }

  /** The text after a `c` that is followed by no other `c`. */
  lemma AfterLastOf(p: string, c: char, n: string)
    requires c !in n
    ensures AfterLast(p + [c] + n, c) == n
  {
    var u := p + [c] + n;
    var r := AfterLast(u, c);
    assert u[|p|] == c;
    assert r == u[|p| + 1..];
  }

  lemma {:induction false} TrimLeftLower(s: string)
    ensures TrimLeft(LowerStr(s)) == LowerStr(TrimLeft(s))
  {
    if |s| > 0 && IsSpace(s[0]) {
      assert LowerStr(s)[1..] == LowerStr(s[1..]);
      TrimLeftLower(s[1..]);
    }
  }

  lemma {:induction false} TrimRightLower(s: string)
    ensures TrimRight(LowerStr(s)) == LowerStr(TrimRight(s))
  {
    if |s| > 0 && IsSpace(s[|s| - 1]) {
      assert LowerStr(s)[..|s| - 1] == LowerStr(s[..|s| - 1]);
      TrimRightLower(s[..|s| - 1]);
    }
  }

  /** Lowering and stripping commute, since case mapping keeps whitespace. */
  lemma StripLower(s: string)
    ensures Strip(LowerStr(s)) == LowerStr(Strip(s))
  {
    TrimLeftLower(s);
    TrimRightLower(TrimLeft(s));
  }

  lemma LowerStrIdempotent(s: string)
    ensures LowerStr(LowerStr(s)) == LowerStr(s)
  {
  }

  /** A whitespace-free prefix passes through collapsing untouched. */
  lemma {:induction false} CollapsePrefix(a: string, t: string, sep: char)
    requires NoSpace(a)
    ensures Collapse(a + t, sep) == a + Collapse(t, sep)
  {
    if a != [] {
      assert (a + t)[1..] == a[1..] + t;
      CollapsePrefix(a[1..], t, sep);
    } else {
      assert a + t == t;
    }
  }

  /** Two words separated by one blank collapse around one separator. */
  lemma {:induction false} CollapseWord(a: string, b: string, sep: char)
    requires NoSpace(a) && NoSpace(b) && b != []
    ensures Collapse(a + " " + b, sep) == a + [sep] + b
  {
    assert a + " " + b == a + ([' '] + b);
    CollapsePrefix(a, [' '] + b, sep);
    assert TrimLeft([' '] + b) == b;
    CollapseOfNoSpace(b, sep);
  }

  /** Every character of `w` is whitespace. */
  predicate AllSpace(w: string) {
    forall i :: 0 <= i < |w| ==> IsSpace(w[i])
  }

  /** `lstrip` drops exactly a leading run of whitespace. */
  lemma TrimLeftRun(w: string, b: string)
    requires AllSpace(w)
    requires b == [] || !IsSpace(b[0])
    ensures TrimLeft(w + b) == b
  {
    assert (w + b)[|w|..] == b;
  }

  /** `rstrip` drops exactly a trailing run of whitespace. */
  lemma TrimRightRun(a: string, w: string)
    requires a == [] || !IsSpace(a[|a| - 1])
    requires AllSpace(w)
    ensures TrimRight(a + w) == a
  {
    assert (a + w)[..|a|] == a;
  }

  /** A whitespace run, however long, collapses to exactly one separator. */
  lemma {:induction false} CollapseRun(w: string, b: string, sep: char)
    requires w != [] && AllSpace(w)
    requires b == [] || !IsSpace(b[0])
    ensures Collapse(w + b, sep) == [sep] + Collapse(b, sep)
  {
    assert (w + b)[0] == w[0];
    TrimLeftRun(w, b);
  }

  /** A possibly empty whitespace run collapses to at most one separator. */
  lemma CollapseLead(x: string, t: string, sep: char)
    requires AllSpace(x)
    requires t == [] || !IsSpace(t[0])
    ensures Collapse(x + t, sep) == (if x == [] then [] else [sep]) + Collapse(t, sep)
  {
    if x != [] {
      CollapseRun(x, t, sep);
    } else {
      assert x + t == t;
    }
  }

  /** Stripping removes exactly the surrounding whitespace of a stripped core. */
  lemma StripRuns(x: string, m: string, y: string)
    requires AllSpace(x) && AllSpace(y)
    requires m != [] && Stripped(m)
    ensures Strip(x + m + y) == m
  {
    assert x + m + y == x + (m + y);
    TrimLeftRun(x, m + y);
    TrimRightRun(m, y);
  }

  /** A word followed by a possibly empty whitespace run. */
  lemma CollapseTail(b: string, y: string, sep: char)
    requires NoSpace(b) && AllSpace(y)
    ensures Collapse(b + y, sep) == b + (if y == [] then [] else [sep])
  {
    CollapsePrefix(b, y, sep);
    assert y + [] == y;
    CollapseLead(y, [], sep);
  }

  /** The collapsing half of `TidyWords`. */
  lemma CollapseWords(x: string, a: string, w: string, b: string, y: string)
    requires AllSpace(x) && AllSpace(y)
    requires a != [] && NoSpace(a) && b != [] && NoSpace(b)
    requires w != [] && AllSpace(w)
    ensures Collapse(x + a + w + b + y, ' ')
         == (if x == [] then [] else [' ']) + (a + " " + b) + (if y == [] then [] else [' '])
  {
    var lead := if x == [] then [] else [' '];
    var tail := if y == [] then [] else [' '];
    var t3 := b + y;
    var t2 := w + t3;
    var t1 := a + t2;
    assert x + a + w + b + y == x + t1;
    assert t1[0] == a[0] && t3[0] == b[0];
    calc {
      Collapse(x + t1, ' ');
    == { CollapseLead(x, t1, ' '); }
      lead + Collapse(t1, ' ');
    == { CollapsePrefix(a, t2, ' '); }
      lead + (a + Collapse(t2, ' '));
    == { CollapseRun(w, t3, ' '); }
      lead + (a + ([' '] + Collapse(t3, ' ')));
    == { CollapseTail(b, y, ' '); }
      lead + (a + ([' '] + (b + tail)));
    == 
      lead + (a + " " + b) + tail;
    }
  }

  /**
   * Two words with whitespace before, between and after them tidy to the
   * words joined by one blank: the surrounding runs go, the inner run
   * becomes a single space.
   */
  lemma TidyWords(x: string, a: string, w: string, b: string, y: string)
    requires AllSpace(x) && AllSpace(y)
    requires a != [] && NoSpace(a) && b != [] && NoSpace(b)
    requires w != [] && AllSpace(w)
    ensures Tidy(x + a + w + b + y) == a + " " + b
  {
    CollapseWords(x, a, w, b, y);
    var m := a + " " + b;
    assert m[0] == a[0] && m[|m| - 1] == b[|b| - 1];
    StripRuns(if x == [] then [] else [' '], m, if y == [] then [] else [' ']);
  }

  /** A string with some non-whitespace character keeps it. */
  lemma {:induction false} NonBlanksWitness(s: string, i: int)
    requires 0 <= i < |s| && !IsSpace(s[i])
    ensures NonBlanks(s) != []
  {
    if i > 0 {
      NonBlanksWitness(s[1..], i - 1);
    }
  }

  /** A stripped string is empty exactly when it holds no non-whitespace. */
  lemma NonBlanksOfStripped(s: string)
    requires Stripped(s)
    ensures NonBlanks(s) == [] <==> s == []
  {
    if s != [] {
      NonBlanksWitness(s, 0);
    }
  }

  /** Text already tidy is left as it is. */
  lemma {:induction false} CollapseOfSpaced(s: string)
    requires SingleSpaced(s) && OnlyBlanks(s)
    ensures Collapse(s, ' ') == s
  {
    if s != [] {
      SliceSpaced(s, 1, |s|);
      CollapseOfSpaced(s[1..]);
      if IsSpace(s[0]) {
        assert |s| == 1 || !IsSpace(s[1]);
        assert TrimLeft(s) == s[1..];
      }
    }
  }

  lemma TidyOfTidy(s: string)
    requires Stripped(s) && SingleSpaced(s) && OnlyBlanks(s)
    ensures Tidy(s) == s
  {
    CollapseOfSpaced(s);
  }
}
