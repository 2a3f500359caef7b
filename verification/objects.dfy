/** The object list of `get_conceptnet_facts_for_image`: the input
    objects stripped and de-duplicated case-insensitively, first occurrence
    kept, in input order. */
module Objects {
  import opened Text

  /** `o.strip()` for every input object. */
  function Cleaned(os: seq<string>): (cs: seq<string>)
    ensures |cs| == |os|
    ensures forall i :: 0 <= i < |os| ==> cs[i] == Strip(os[i])
  {
    seq(|os|, i requires 0 <= i < |os| => Strip(os[i]))
  }

  /** Cleaned input `i` is kept: it is not empty, and no earlier one lowers
      to the same text. */
  predicate FirstOccurrence(cs: seq<string>, i: int)
    requires 0 <= i < |cs|
  {
    cs[i] != [] && forall j :: 0 <= j < i ==> LowerStr(cs[j]) != LowerStr(cs[i])
  }

  /** The kept objects among the first `n` cleaned inputs, in input order. */
  function Selected(cs: seq<string>, n: nat): (r: seq<string>)
    requires n <= |cs|
    ensures |r| <= n
  {
    if n == 0 then []
    else if FirstOccurrence(cs, n - 1) then Selected(cs, n - 1) + [cs[n - 1]]
    else Selected(cs, n - 1)
  }

  /** `seen` after the first `n` cleaned inputs: the lowered non-empty
      ones. */
  function Seen(cs: seq<string>, n: nat): set<string>
    requires n <= |cs|
  {
    if n == 0 then {}
    else if cs[n - 1] != [] then Seen(cs, n - 1) + {LowerStr(cs[n - 1])}
    else Seen(cs, n - 1)
  }

  /** The de-duplicated object list `objs`. */
  function Dedup(os: seq<string>): seq<string> {
    Selected(Cleaned(os), |os|)
  }

  /** The lowered forms of a list of objects. */
  function Lowered(objs: seq<string>): set<string> {
    if objs == [] then {} else Lowered(objs[..|objs| - 1]) + {LowerStr(objs[|objs| - 1])}
  }

  lemma LoweredSnoc(objs: seq<string>, o: string)
    ensures Lowered(objs + [o]) == Lowered(objs) + {LowerStr(o)}
  {
    assert (objs + [o])[..|objs|] == objs;
  }

  lemma {:induction false} LoweredMembers(objs: seq<string>, x: string)
    ensures x in Lowered(objs) <==> exists i :: 0 <= i < |objs| && LowerStr(objs[i]) == x
  {
    if objs != [] {
      var init := objs[..|objs| - 1];
      LoweredMembers(init, x);
      if x in Lowered(objs) {
        if x in Lowered(init) {
          var i :| 0 <= i < |init| && LowerStr(init[i]) == x;
          assert objs[i] == init[i];
        } else {
          assert LowerStr(objs[|objs| - 1]) == x;
        }
      }
      if exists i :: 0 <= i < |objs| && LowerStr(objs[i]) == x {
        var i :| 0 <= i < |objs| && LowerStr(objs[i]) == x;
        if i < |init| {
          assert init[i] == objs[i];
        }
      }
    }
  }

  lemma {:induction false} SeenMembers(cs: seq<string>, n: nat, x: string)
    requires n <= |cs|
    ensures x in Seen(cs, n) <==> exists j :: 0 <= j < n && cs[j] != [] && LowerStr(cs[j]) == x
  {
    if n > 0 {
      SeenMembers(cs, n - 1, x);
      if cs[n - 1] != [] && LowerStr(cs[n - 1]) == x {
        assert x in Seen(cs, n);
      } else {
        assert x in Seen(cs, n) <==> x in Seen(cs, n - 1);
        if exists j :: 0 <= j < n && cs[j] != [] && LowerStr(cs[j]) == x {
          var j :| 0 <= j < n && cs[j] != [] && LowerStr(cs[j]) == x;
          assert j != n - 1;
        }
      }
    }
  }

  /** The source's test `o2 and o2.lower() not in seen` decides exactly the
      first occurrences. */
  lemma FirstOccurrenceSeen(cs: seq<string>, i: int)
    requires 0 <= i < |cs|
    ensures FirstOccurrence(cs, i) <==> cs[i] != [] && LowerStr(cs[i]) !in Seen(cs, i)
  {
    SeenMembers(cs, i, LowerStr(cs[i]));
    if cs[i] != [] && !FirstOccurrence(cs, i) {
      var j :| 0 <= j < i && LowerStr(cs[j]) == LowerStr(cs[i]);
      assert cs[j] != [] by {
        assert |LowerStr(cs[j])| == |LowerStr(cs[i])| > 0;
      }
    }
  }

  /** The lowered kept objects are exactly `seen`. */
  lemma {:induction false} SelectedSeen(cs: seq<string>, n: nat)
    requires n <= |cs|
    ensures Lowered(Selected(cs, n)) == Seen(cs, n)
  {
    if n > 0 {
      SelectedSeen(cs, n - 1);
      FirstOccurrenceSeen(cs, n - 1);
      if FirstOccurrence(cs, n - 1) {
        LoweredSnoc(Selected(cs, n - 1), cs[n - 1]);
      } else if cs[n - 1] != [] {
        Absorb(Seen(cs, n - 1), LowerStr(cs[n - 1]));
      }
    }
  }

  lemma Absorb<T>(a: set<T>, x: T)
    requires x in a
    ensures a + {x} == a
  {
  }

  /** The loop's invariant after `i` inputs: `objs` holds the kept objects
      and `seen` their lowered forms. */
  predicate Scanned(cs: seq<string>, i: nat, seen: set<string>, objs: seq<string>) {
    i <= |cs| && objs == Selected(cs, i) && seen == Lowered(objs)
  }

  /** The source's loop: `seen` holds the lowered forms of the objects kept
      so far. */
  method DedupObjects(os: seq<string>) returns (objs: seq<string>)
    ensures objs == Dedup(os)
  {
    var cs := Cleaned(os);
    var seen: set<string> := {};
    objs := [];
    var i := 0;
    while i < |os|
      invariant Scanned(cs, i, seen, objs)
    {
      var o2 := cs[i];
      DedupStep(cs, i, seen, objs);
      if o2 != [] && LowerStr(o2) !in seen {
        seen := seen + {LowerStr(o2)};
        objs := objs + [o2];
      }
      i := i + 1;
    }
  }

  /** One turn of the loop keeps its invariant. */
  lemma DedupStep(cs: seq<string>, i: nat, seen: set<string>, objs: seq<string>)
    requires i < |cs| && Scanned(cs, i, seen, objs)
    ensures cs[i] != [] && LowerStr(cs[i]) !in seen ==> Scanned(cs, i + 1, seen + {LowerStr(cs[i])}, objs + [cs[i]])
    ensures !(cs[i] != [] && LowerStr(cs[i]) !in seen) ==> Scanned(cs, i + 1, seen, objs)
  {
    FirstOccurrenceSeen(cs, i);
    SelectedSeen(cs, i);
    LoweredSnoc(objs, cs[i]);
  }

  /** Every kept object is one of the cleaned inputs, and not empty. */
  lemma {:induction false} SelectedFrom(cs: seq<string>, n: nat)
    requires n <= |cs|
    ensures forall i :: 0 <= i < |Selected(cs, n)| ==> Selected(cs, n)[i] != [] && Selected(cs, n)[i] in cs[..n]
  {
    if n > 0 {
      SelectedFrom(cs, n - 1);
      var prev := Selected(cs, n - 1);
      if FirstOccurrence(cs, n - 1) {
        var r := prev + [cs[n - 1]];
        forall i | 0 <= i < |r|
          ensures r[i] != [] && r[i] in cs[..n]
        {
          if i < |prev| {
            assert r[i] == prev[i] && prev[i] in cs[..n - 1];
            var j :| 0 <= j < n - 1 && cs[..n - 1][j] == r[i];
            assert cs[..n][j] == r[i];
          } else {
            assert cs[..n][n - 1] == r[i];
          }
        }
      } else {
        forall i | 0 <= i < |prev|
          ensures prev[i] in cs[..n]
        {
          var j :| 0 <= j < n - 1 && cs[..n - 1][j] == prev[i];
          assert cs[..n][j] == prev[i];
        }
      }
    }
  }

  predicate LoweredDistinct(objs: seq<string>) {
    forall i, j :: 0 <= i < j < |objs| ==> LowerStr(objs[i]) != LowerStr(objs[j])
  }

  /** No two kept objects lower to the same text. */
  lemma {:induction false} SelectedDistinct(cs: seq<string>, n: nat)
    requires n <= |cs|
    ensures LoweredDistinct(Selected(cs, n))
  {
    if n > 0 {
      SelectedDistinct(cs, n - 1);
      var prev := Selected(cs, n - 1);
      if FirstOccurrence(cs, n - 1) {
        var r := prev + [cs[n - 1]];
        FirstOccurrenceSeen(cs, n - 1);
        SelectedSeen(cs, n - 1);
        forall i, j | 0 <= i < j < |r|
          ensures LowerStr(r[i]) != LowerStr(r[j])
        {
          assert r[i] == prev[i];
          if j == |prev| {
            LoweredMembers(prev, LowerStr(cs[n - 1]));
          } else {
            assert r[j] == prev[j];
          }
        }
      }
    }
  }

  /** Every entry of `objs` is a stripped, non-empty input. */
  lemma DedupFromInputs(os: seq<string>)
    ensures forall i :: 0 <= i < |Dedup(os)| ==> Dedup(os)[i] != [] && Stripped(Dedup(os)[i])
    ensures forall i :: 0 <= i < |Dedup(os)| ==> exists k :: 0 <= k < |os| && Dedup(os)[i] == Strip(os[k])
  {
    var cs := Cleaned(os);
    var objs := Dedup(os);
    SelectedFrom(cs, |os|);
    assert cs[..|os|] == cs;
    forall i | 0 <= i < |objs|
      ensures Stripped(objs[i]) && exists k :: 0 <= k < |os| && objs[i] == Strip(os[k])
    {
      var k :| 0 <= k < |cs| && cs[k] == objs[i];
      assert objs[i] == Strip(os[k]);
    }
  }

  /** No two entries of `objs` are equal ignoring case. */
  lemma DedupDistinct(os: seq<string>)
    ensures LoweredDistinct(Dedup(os))
  {
    SelectedDistinct(Cleaned(os), |os|);
  }

  /** Every non-blank input is represented in `objs`, ignoring case. */
  lemma DedupComplete(os: seq<string>)
    ensures forall k :: 0 <= k < |os| && Strip(os[k]) != [] ==> LowerStr(Strip(os[k])) in Lowered(Dedup(os))
  {
    var cs := Cleaned(os);
    SelectedSeen(cs, |os|);
    forall k | 0 <= k < |os| && Strip(os[k]) != []
      ensures LowerStr(Strip(os[k])) in Lowered(Dedup(os))
    {
      SeenMembers(cs, |os|, LowerStr(cs[k]));
    }
  }

  /** De-duplicating an already de-duplicated list changes nothing. */
  lemma DedupIdempotent(os: seq<string>)
    ensures Dedup(Dedup(os)) == Dedup(os)
  {
    var objs := Dedup(os);
    DedupFromInputs(os);
    DedupDistinct(os);
    var cs := Cleaned(objs);
    forall i | 0 <= i < |objs|
      ensures cs[i] == objs[i]
    {
      assert Stripped(objs[i]);
    }
    assert cs == objs;
    SelectedFixed(objs, |objs|);
  }

  lemma {:induction false} SelectedFixed(objs: seq<string>, n: nat)
    requires n <= |objs|
    requires forall i :: 0 <= i < |objs| ==> objs[i] != []
    requires LoweredDistinct(objs)
    ensures Selected(objs, n) == objs[..n]
  {
    if n > 0 {
      SelectedFixed(objs, n - 1);
      assert FirstOccurrence(objs, n - 1);
      assert objs[..n] == objs[..n - 1] + [objs[n - 1]];
    }
  }
}
