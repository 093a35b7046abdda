/** What the checks can rely on: independence of layout and order, whole texts, and the untranslated test. */
module PoProperties {
  import opened Options
  import opened PythonText
  import opened PoCatalogue
  import opened PoPrinter

  // ---- A blank line cuts a catalogue in two ----

  function Prepend(entries: seq<Entry>, s: State): State {
    s.(entries := entries + s.entries)
  }

  lemma StepKeepsFinished(entries: seq<Entry>, s: State, line: string)
    ensures Step(Prepend(entries, s), line) == Prepend(entries, Step(s, line))
  {}

  /** Entries already finished never influence what is read next. */
  lemma {:induction false} RunKeepsFinished(entries: seq<Entry>, s: State, lines: seq<string>)
    ensures Run(Prepend(entries, s), lines) == Prepend(entries, Run(s, lines))
    decreases |lines|
  {
    if lines != [] {
      StepKeepsFinished(entries, s, lines[0]);
      RunKeepsFinished(entries, Step(s, lines[0]), lines[1..]);
    }
  }

  lemma FlushPrepended(entries: seq<Entry>, s: State)
    ensures Flush(Prepend(entries, s)).entries == entries + Flush(s).entries
  {}

  /** Any two pieces of catalogue, joined by a blank line, parse independently. */
  lemma BlankLineSplits(a: seq<string>, blank: string, b: seq<string>)
    requires Strip(blank) == ""
    ensures Parse(a + [blank] + b) == Parse(a) + Parse(b)
  {
    var s := Run(Between([]), a);
    RunConcat(Between([]), a + [blank], b);
    RunConcat(Between([]), a, [blank]);
    assert Run(s, [blank]) == Flush(s);
    var done := Flush(s).entries;
    assert done + [] == done;
    assert Flush(s) == Prepend(done, Between([]));
    RunKeepsFinished(done, Between([]), b);
    var r := Run(Between([]), b);
    FlushPrepended(done, r);
  }

  // ---- Keys and verdict depend on the entries alone ----

  /** Wrapping, comments, spacing and order of the entries change neither the key set nor the verdict. */
  lemma ChecksIgnoreLayout(ls: seq<Layout>, ms: seq<Layout>)
    requires forall e :: e in Values(ls) <==> e in Values(ms)
    ensures KeySet(Parse(PrintAll(ls))) == KeySet(Parse(PrintAll(ms)))
    ensures PassesTranslationCheck(Parse(PrintAll(ls))) <==> PassesTranslationCheck(Parse(PrintAll(ms)))
  {
    ParseUndoesPrint(ls);
    ParseUndoesPrint(ms);
  }

  // ---- Every list of entries can be printed ----

  function OneLine(text: string): Wrapped {
    Wrapped(text, [])
  }

  function OneLineOption(text: Option<string>): Option<Wrapped> {
    if text.Some? then Some(OneLine(text.value)) else None
  }

  function OneLines(texts: seq<string>): (r: seq<Wrapped>)
    ensures |r| == |texts|
  {
    if texts == [] then [] else OneLines(texts[..|texts| - 1]) + [OneLine(texts[|texts| - 1])]
  }

  function LayoutOf(e: Entry): Layout {
    Layout(if e.isFuzzy then [", fuzzy"] else [], OneLineOption(e.msgctxt), OneLine(e.msgid),
           OneLineOption(e.msgidPlural), OneLines(e.msgstrs), e.msgidPlural.Some?, "", [])
  }

  function LayoutsOf(entries: seq<Entry>): seq<Layout> {
    if entries == [] then [] else [LayoutOf(entries[0])] + LayoutsOf(entries[1..])
  }

  lemma {:induction false} TextsOfOneLines(texts: seq<string>)
    ensures Texts(OneLines(texts)) == texts
  {
    if texts != [] {
      var n := |texts| - 1;
      assert OneLines(texts)[..n] == OneLines(texts[..n]);
      TextsOfOneLines(texts[..n]);
      assert texts[n] + "" == texts[n];
    }
  }

  lemma FuzzyFlag()
    ensures AnyFuzzy([", fuzzy"])
  {
    assert ", fuzzy"[2..7] == "fuzzy";
  }

  lemma ValueOfLayout(e: Entry)
    ensures LayoutOf(e).Value() == e
  {
    TextsOfOneLines(e.msgstrs);
    FuzzyFlag();
    assert forall t: string :: t + "" == t;
  }

  lemma {:induction false} ValuesOfLayouts(entries: seq<Entry>)
    ensures Values(LayoutsOf(entries)) == entries
  {
    if entries != [] {
      ValueOfLayout(entries[0]);
      ValuesOfLayouts(entries[1..]);
      assert LayoutsOf(entries)[1..] == LayoutsOf(entries[1..]);
    }
  }

  /** The plain printer loses nothing: every list of entries comes back from it. */
  lemma EveryCatalogueComesBack(entries: seq<Entry>)
    ensures Values(LayoutsOf(entries)) == entries
    ensures Parse(PrintAll(LayoutsOf(entries))) == entries
  {
    ValuesOfLayouts(entries);
    ParseUndoesPrint(LayoutsOf(entries));
  }

  // ---- The untranslated test ----

  /** What the script's own description asks for: a translation, no form of it empty, and no fuzzy mark. */
  predicate FullyTranslated(entries: seq<Entry>) {
    forall e :: e in entries && !e.IsHeader() ==> !e.isFuzzy && e.msgstrs != [] && "" !in e.msgstrs
  }

  /** Some plural forms translated and some not. */
  predicate PartlyTranslated(e: Entry) {
    "" in e.msgstrs && exists t :: t in e.msgstrs && t != ""
  }

  lemma EmptyFormCases(e: Entry)
    ensures "" in e.msgstrs <==> e.IsUntranslated() || PartlyTranslated(e)
  {
    if e.IsUntranslated() {
      assert e.msgstrs[0] in e.msgstrs;
    }
    if "" in e.msgstrs && !PartlyTranslated(e) {
      assert forall i :: 0 <= i < |e.msgstrs| ==> e.msgstrs[i] in e.msgstrs;
    }
  }

  /** The check lets through, against its description, entries translated in part and entries without any msgstr. */
  lemma CheckMeetsItsDescriptionExactlyWhen(entries: seq<Entry>)
    ensures FullyTranslated(entries) <==>
            && PassesTranslationCheck(entries)
            && forall e :: e in entries && !e.IsHeader() ==> !PartlyTranslated(e) && e.msgstrs != []
  {
    forall e | e in entries
      ensures "" in e.msgstrs <==> e.IsUntranslated() || PartlyTranslated(e)
    {
      EmptyFormCases(e);
    }
  }

  /** A plural with one form missing passes. */
  lemma MissingPluralFormPasses()
    ensures var e := Entry(None, "file", Some("files"), ["Datei", ""], false);
            PassesTranslationCheck([e]) && !FullyTranslated([e])
  {
    var e := Entry(None, "file", Some("files"), ["Datei", ""], false);
    assert e.msgstrs[0] != "" && e.msgstrs[1] == "";
    assert e in [e];
  }

  /** So does an entry without any msgstr. */
  lemma MissingMsgstrPasses()
    ensures var e := Entry(None, "file", None, [], false);
            PassesTranslationCheck([e]) && !FullyTranslated([e])
  {
    var e := Entry(None, "file", None, [], false);
    assert e in [e];
  }
}
