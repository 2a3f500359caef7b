/** The sentence renderer of conceptnet.py: `REL_TEMPLATES` and
    `_edge_to_sentence`. */
module Sentences {
  import opened Results
  import opened Text
  import opened Articles
  import Edges

  /** The shape of a template: the words between subject and object, and
      whether the object gets an article too. */
  datatype Form = Form(connector: string, articledObject: bool)

  /** The nine templates, stated as shapes. */
  const Forms: map<string, Form> := map[
    "IsA" := Form(" is ", true),
    "PartOf" := Form(" is part of ", true),
    "HasA" := Form(" has ", true),
    "UsedFor" := Form(" is used for ", false),
    "CapableOf" := Form(" can ", false),
    "ReceivesAction" := Form(" can be ", false),
    "AtLocation" := Form(" is often found in ", true),
    "LocatedNear" := Form(" is often near ", true),
    "HasProperty" := Form(" can be ", false)
  ]

  /** The shape of any relation: a known one's template, or the fallback
      that puts the relation name itself, unarticled, between the two. */
  function FormOf(rel: string): Form {
    if rel in Forms then Forms[rel] else Form(" " + rel + " ", false)
  }

  /** The object of the `IsA` template, behind its own determiner guard. */
  function IsAObject(o: string): string {
    var lower := LowerStr(o);
    if !(StartsWith(lower, "a ") || StartsWith(lower, "an ") || StartsWith(lower, "the "))
    then MaybeArticle(o)
    else o
  }

  /** `REL_TEMPLATES[rel](s, o)`, or `None` when `rel` has no template. */
  function Template(rel: string, s: string, o: string): Option<string> {
    if rel == "IsA" then Some(MaybeArticle(s) + " is " + IsAObject(o))
    else if rel == "PartOf" then Some(MaybeArticle(s) + " is part of " + MaybeArticle(o))
    else if rel == "HasA" then Some(MaybeArticle(s) + " has " + MaybeArticle(o))
    else if rel == "UsedFor" then Some(MaybeArticle(s) + " is used for " + o)
    else if rel == "CapableOf" then Some(MaybeArticle(s) + " can " + o)
    else if rel == "ReceivesAction" then Some(MaybeArticle(s) + " can be " + o)
    else if rel == "AtLocation" then Some(MaybeArticle(s) + " is often found in " + MaybeArticle(o))
    else if rel == "LocatedNear" then Some(MaybeArticle(s) + " is often near " + MaybeArticle(o))
    else if rel == "HasProperty" then Some(MaybeArticle(s) + " can be " + o)
    else None
  }

  /** A label as the renderer shows it: underscores as blanks, stripped. */
  function Shown(name: string): (r: string)
    ensures Stripped(r) && '_' !in r
  {
    var spaced := Replace(name, '_', ' ');
    assert '_' !in Strip(spaced) by {
      if '_' in Strip(spaced) { StripKeeps(spaced, '_'); }
    }
    Strip(spaced)
  }

  /** The sentence `_edge_to_sentence` builds, before cleanup. */
  function SentenceText(start: string, rel: string, end: string): string {
    var s := Shown(start);
    var o := Shown(end);
    match Template(rel, s, o)
    case Some(t) => t
    case None => MaybeArticle(s) + (" " + rel + " ") + o
  }

  /** Sentence case and the final period. */
  function Capitalise(t: string): (r: string)
    requires t != []
    ensures |r| == |t| + 1 && r[0] == Upper(t[0]) && r[1..|t|] == t[1..] && r[|t|] == '.'
  {
    [Upper(t[0])] + t[1..] + "."
  }

  /** `_edge_to_sentence`, with `None` where the source fails with an
      `IndexError` because the cleaned text is empty. */
  function EdgeToSentence(start: string, rel: string, end: string): (r: Option<string>)
    ensures r.Some? <==> Tidy(SentenceText(start, rel, end)) != []
    ensures r.Some? ==> r.value == Capitalise(Tidy(SentenceText(start, rel, end)))
    ensures r.Some? ==> SingleSpaced(r.value) && OnlyBlanks(r.value)
    ensures r.Some? ==> !IsSpace(r.value[0]) && !IsSpace(r.value[|r.value| - 2]) && r.value[|r.value| - 1] == '.'
  {
    var t := Tidy(SentenceText(start, rel, end));
    if t == [] then None
    else
      CapitaliseSpaced(t);
      Some(Capitalise(t))
  }

  lemma CapitaliseSpaced(t: string)
    requires t != [] && Stripped(t) && SingleSpaced(t) && OnlyBlanks(t)
    ensures var r := Capitalise(t);
      SingleSpaced(r) && OnlyBlanks(r) && !IsSpace(r[0]) && !IsSpace(r[|r| - 2])
  {
    var r := Capitalise(t);
    assert forall i :: 1 <= i < |t| ==> r[i] == t[i];
    forall i | 0 <= i < |r| - 1
      ensures !(IsSpace(r[i]) && IsSpace(r[i + 1]))
    {
      if i == 0 {
        assert !IsSpace(r[0]);
      } else if i + 1 < |t| {
        assert r[i] == t[i] && r[i + 1] == t[i + 1];
      }
    }
  }

  /** The `IsA` guard changes nothing on a stripped object: such an object
      already starting with a determiner is returned bare by
      `_maybe_article` as well. */
  lemma IsAGuardRedundant(o: string)
    requires Stripped(o)
    ensures IsAObject(o) == MaybeArticle(o)
  {
    var lower := LowerStr(o);
    if StartsWith(lower, "a ") {
      assert "a " in Determiners;
    } else if StartsWith(lower, "an ") {
      assert "an " in Determiners;
    } else if StartsWith(lower, "the ") {
      assert "the " in Determiners;
    }
  }

  /** The templates are exactly the default relations. */
  lemma FormsAreDefaults()
    ensures Forms.Keys == Edges.DefaultRelations
  {
  }

  /** Each template is its shape filled in. */
  lemma TemplateForm(rel: string, s: string, o: string)
    requires Stripped(o)
    ensures Template(rel, s, o).Some? <==> rel in Forms
    ensures rel in Forms ==> (Template(rel, s, o).value ==
      MaybeArticle(s) + Forms[rel].connector + (if Forms[rel].articledObject then MaybeArticle(o) else o))
  {
    if rel == "IsA" {
      IsAGuardRedundant(o);
      assert Forms[rel] == Form(" is ", true);
    } else if rel == "PartOf" {
      assert Forms[rel] == Form(" is part of ", true);
    } else if rel == "HasA" {
      assert Forms[rel] == Form(" has ", true);
    } else if rel == "UsedFor" {
      assert Forms[rel] == Form(" is used for ", false);
    } else if rel == "CapableOf" {
      assert Forms[rel] == Form(" can ", false);
    } else if rel == "ReceivesAction" {
      assert Forms[rel] == Form(" can be ", false);
    } else if rel == "AtLocation" {
      assert Forms[rel] == Form(" is often found in ", true);
    } else if rel == "LocatedNear" {
      assert Forms[rel] == Form(" is often near ", true);
    } else if rel == "HasProperty" {
      assert Forms[rel] == Form(" can be ", false);
    } else {
      assert rel !in Forms;
    }
  }

  /** Every sentence is the articled subject, the connector, then the
      object: articled for `IsA`, `PartOf`, `HasA`, `AtLocation` and
      `LocatedNear`, bare otherwise and in the fallback. */
  lemma SentenceTextShape(start: string, rel: string, end: string)
    ensures SentenceText(start, rel, end) ==
      MaybeArticle(Shown(start)) + FormOf(rel).connector +
      (if FormOf(rel).articledObject then MaybeArticle(Shown(end)) else Shown(end))
  {
    var s := Shown(start);
    var o := Shown(end);
    TemplateForm(rel, s, o);
    if rel in Forms {
      assert SentenceText(start, rel, end) == Template(rel, s, o).value;
    } else {
      assert SentenceText(start, rel, end) == MaybeArticle(s) + (" " + rel + " ") + o;
    }
  }

  /** Rendering fails exactly for an unknown, all-blank relation name
      between a blank subject and a blank object. */
  lemma SentenceFailsExactly(start: string, rel: string, end: string)
    ensures EdgeToSentence(start, rel, end).None? <==>
      rel !in Forms && NonBlanks(rel) == [] && Shown(start) == [] && Shown(end) == []
  {
    TextBlank(start, rel, end);
    ConnectorBlank(rel);
    TidyBlank(SentenceText(start, rel, end));
  }

  /** The sentence text is blank exactly when subject, connector and object
      all are. */
  lemma TextBlank(start: string, rel: string, end: string)
    ensures NonBlanks(SentenceText(start, rel, end)) == [] <==>
      Shown(start) == [] && NonBlanks(FormOf(rel).connector) == [] && Shown(end) == []
  {
    var subj := MaybeArticle(Shown(start));
    var c := FormOf(rel).connector;
    var obj := if FormOf(rel).articledObject then MaybeArticle(Shown(end)) else Shown(end);
    SentenceTextShape(start, rel, end);
    FilterAppend(subj, c, NotSpace);
    FilterAppend(subj + c, obj, NotSpace);
    NonBlanksOfStripped(subj);
    NonBlanksOfStripped(obj);
  }

  lemma TidyBlank(t: string)
    ensures Tidy(t) == [] <==> NonBlanks(t) == []
  {
    NonBlanksOfStripped(Tidy(t));
  }

  /** A template connector always holds a word; the fallback one holds the
      relation name. */
  lemma ConnectorBlank(rel: string)
    ensures NonBlanks(FormOf(rel).connector) == [] <==> rel !in Forms && NonBlanks(rel) == []
  {
    if rel in Forms {
      TemplateConnectorWord(rel);
    } else {
      FilterAppend([' '], rel, NotSpace);
      FilterAppend([' '] + rel, [' '], NotSpace);
      assert NonBlanks([' ']) == [];
    }
  }

  lemma TemplateConnectorWord(rel: string)
    requires rel in Forms
    ensures NonBlanks(Forms[rel].connector) != []
  {
    var c := Forms[rel].connector;
    assert |c| > 1 && !IsSpace(c[1]);
    NonBlanksWitness(c, 1);
  }

  /** A fact with a known relation always renders. */
  lemma KnownRelationRenders(start: string, rel: string, end: string)
    requires rel in Forms
    ensures EdgeToSentence(start, rel, end).Some?
  {
    SentenceFailsExactly(start, rel, end);
  }

  /** Underscores and blanks are the same to the renderer. */
  lemma UnderscoresAreBlanks(start: string, rel: string, end: string)
    ensures EdgeToSentence(Replace(start, '_', ' '), rel, Replace(end, '_', ' ')) == EdgeToSentence(start, rel, end)
  {
    assert Replace(Replace(start, '_', ' '), '_', ' ') == Replace(start, '_', ' ');
    assert Replace(Replace(end, '_', ' '), '_', ' ') == Replace(end, '_', ' ');
  }
}
