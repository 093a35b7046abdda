/** Catalogues as whole texts: printing, `splitlines` and parsing, end to end. */
module PoText {
  import opened Options
  import opened PythonText
  import opened PoCatalogue
  import opened PoPrinter

  predicate Clean(s: string) {
    forall i :: 0 <= i < |s| ==> !IsLineBreak(s[i])
  }

  predicate AllClean(lines: seq<string>) {
    forall i :: 0 <= i < |lines| ==> Clean(lines[i])
  }

  function Unlines(lines: seq<string>): string {
    if lines == [] then "" else lines[0] + "\n" + Unlines(lines[1..])
  }

  lemma {:induction false} LineLengthIs(line: string, rest: string)
    requires Clean(line) && (rest != "" ==> IsLineBreak(rest[0]))
    ensures LineLength(line + rest) == |line|
  {
    if line == "" {
      assert line + rest == rest;
    } else {
      assert (line + rest)[1..] == line[1..] + rest;
      LineLengthIs(line[1..], rest);
    }
  }

  lemma {:induction false} SplitUndoesUnlines(lines: seq<string>)
    requires AllClean(lines)
    ensures SplitLines(Unlines(lines)) == lines
  {
    if lines != [] {
      var text, rest := Unlines(lines), Unlines(lines[1..]);
      assert text == lines[0] + ("\n" + rest);
      LineLengthIs(lines[0], "\n" + rest);
      var n := |lines[0]|;
      assert text[n] == '\n' && text[..n] == lines[0] && text[n + 1..] == rest;
      SplitUndoesUnlines(lines[1..]);
    }
  }

  lemma {:induction false} SplitLinesAreClean(text: string)
    ensures AllClean(SplitLines(text))
    decreases |text|
  {
    if text != "" {
      var n := LineLength(text);
      assert Clean(text[..n]);
      if n == |text| {
        assert text[..n] == text;
      } else {
        var width := if text[n] == '\r' && n + 1 < |text| && text[n + 1] == '\n' then 2 else 1;
        SplitLinesAreClean(text[n + width..]);
      }
    }
  }

  // ---- The parser invents no characters ----

  lemma CleanSlice(s: string, i: nat, j: nat)
    requires Clean(s) && i <= j <= |s|
    ensures Clean(s[i..j])
  {}

  lemma {:induction false} CleanLStrip(s: string)
    requires Clean(s)
    ensures Clean(LStrip(s))
  {
    if s != "" && IsSpace(s[0]) {
      CleanLStrip(s[1..]);
    }
  }

  lemma CleanUnquote(s: string)
    requires Clean(s)
    ensures Clean(Unquote(s))
  {
    CleanLStrip(s);
    var r := Strip(s);
    assert Clean(r) by {
      assert r == LStrip(s)[..|r|];
    }
    if 2 <= |r| {
      CleanSlice(r, 1, |r| - 1);
    }
  }

  lemma {:induction false} CleanAfterSpace(s: string)
    requires Clean(s)
    ensures Clean(AfterSpace(s))
  {
    if s != "" && s[0] != ' ' {
      CleanAfterSpace(s[1..]);
    }
  }

  predicate CleanOption(s: Option<string>) {
    s.Some? ==> Clean(s.value)
  }

  predicate CleanEntry(e: Entry) {
    CleanOption(e.msgctxt) && Clean(e.msgid) && CleanOption(e.msgidPlural) && AllClean(e.msgstrs)
  }

  predicate CleanEntries(entries: seq<Entry>) {
    forall i :: 0 <= i < |entries| ==> CleanEntry(entries[i])
  }

  ghost predicate CleanKind(kind: LineKind) {
    (kind.Keyword? || kind.Continuation?) ==> Clean(kind.text)
  }

  lemma ClassifyIsClean(line: string)
    requires Clean(line)
    ensures CleanKind(Classify(line))
  {
    var head := HeadOf(line);
    if head.Sets? {
      CleanUnquote(line[head.from..]);
    }
    CleanAfterSpace(line);
    CleanUnquote(AfterSpace(line));
    CleanUnquote(line);
  }

  lemma SetIsClean(e: Entry, field: Field, text: string)
    requires CleanEntry(e) && Clean(text)
    ensures CleanEntry(SetField(e, field, text))
  {}

  lemma ExtendIsClean(e: Entry, field: Field, text: string)
    requires CleanEntry(e) && Clean(text)
    ensures CleanEntry(ExtendField(e, field, text))
  {}

  lemma StepIsClean(s: State, line: string)
    requires Clean(line) && CleanEntries(s.entries) && CleanEntry(s.entry)
    ensures CleanEntries(Step(s, line).entries) && CleanEntry(Step(s, line).entry)
  {
    ClassifyIsClean(line);
    match Classify(line)
    case Blank =>
      assert CleanEntries(s.entries + [s.entry]);
    case Keyword(field, text) => SetIsClean(s.entry, field, text);
    case Continuation(text) => if s.target.Some? { ExtendIsClean(s.entry, s.target.value, text); }
    case _ =>
  }

  lemma {:induction false} RunIsClean(s: State, lines: seq<string>)
    requires AllClean(lines) && CleanEntries(s.entries) && CleanEntry(s.entry)
    ensures CleanEntries(Run(s, lines).entries) && CleanEntry(Run(s, lines).entry)
    decreases |lines|
  {
    if lines != [] {
      StepIsClean(s, lines[0]);
      RunIsClean(Step(s, lines[0]), lines[1..]);
    }
  }

  /** No field the parser returns contains a line break. */
  lemma ParsedFieldsAreClean(text: string)
    ensures CleanEntries(Parse(SplitLines(text)))
  {
    SplitLinesAreClean(text);
    RunIsClean(Between([]), SplitLines(text));
  }

  // ---- The printer adds none ----

  lemma CleanConcat(a: string, b: string)
    ensures Clean(a + b) <==> Clean(a) && Clean(b)
  {
    assert forall i :: 0 <= i < |a| ==> (a + b)[i] == a[i];
    assert forall i :: 0 <= i < |b| ==> (a + b)[|a| + i] == b[i];
  }

  lemma AllCleanConcat(a: seq<string>, b: seq<string>)
    ensures AllClean(a + b) <==> AllClean(a) && AllClean(b)
  {
    assert forall i :: 0 <= i < |a| ==> (a + b)[i] == a[i];
    assert forall i :: 0 <= i < |b| ==> (a + b)[|a| + i] == b[i];
  }

  lemma CleanQuote(chunk: string)
    requires Clean(chunk)
    ensures Clean(Quote(chunk))
  {}

  lemma {:induction false} CleanQuotes(chunks: seq<string>)
    requires Clean(Join(chunks))
    ensures AllClean(Quotes(chunks))
  {
    if chunks != [] {
      CleanConcat(chunks[0], Join(chunks[1..]));
      CleanQuote(chunks[0]);
      CleanQuotes(chunks[1..]);
    }
  }

  lemma CleanField(keyword: string, field: Wrapped)
    requires Clean(keyword) && Clean(field.Text())
    ensures AllClean(PrintField(keyword, field))
  {
    CleanConcat(field.first, Join(field.more));
    CleanQuote(field.first);
    CleanConcat(keyword, Quote(field.first));
    CleanQuotes(field.more);
  }

  lemma CleanDecimal(n: nat)
    ensures Clean(Decimal(n))
  {}

  lemma CleanStrKeyword(indexed: bool, n: nat)
    ensures Clean(StrKeyword(indexed, n))
  {
    CleanDecimal(n);
    CleanConcat("msgstr[", Decimal(n));
    CleanConcat("msgstr[" + Decimal(n), "] ");
  }

  lemma {:induction false} CleanStrs(indexed: bool, strs: seq<Wrapped>)
    requires AllClean(Texts(strs))
    ensures AllClean(PrintStrs(indexed, strs))
  {
    if strs != [] {
      var n := |strs| - 1;
      AllCleanConcat(Texts(strs[..n]), [strs[n].Text()]);
      assert [strs[n].Text()][0] == strs[n].Text();
      CleanStrs(indexed, strs[..n]);
      CleanStrKeyword(indexed, n);
      CleanField(StrKeyword(indexed, n), strs[n]);
      AllCleanConcat(PrintStrs(indexed, strs[..n]), PrintField(StrKeyword(indexed, n), strs[n]));
    }
  }

  lemma {:induction false} CleanComments(comments: seq<string>)
    requires AllClean(comments)
    ensures AllClean(Comments(comments))
  {
    if comments != [] {
      CleanConcat("#", comments[0]);
      CleanComments(comments[1..]);
    }
  }

  /** The lines of a layout other than its fields: comments and blank lines. */
  predicate CleanTrim(l: Layout) {
    AllClean(l.comments) && Clean(l.blank) && forall i :: 0 <= i < |l.moreBlanks| ==> Clean(l.moreBlanks[i])
  }

  lemma CleanPrint(l: Layout)
    requires CleanTrim(l) && CleanEntry(l.Value())
    ensures AllClean(Print(l))
  {
    CleanComments(l.comments);
    if l.ctxt.Some? {
      CleanField("msgctxt ", l.ctxt.value);
    }
    CleanField("msgid ", l.id);
    if l.plural.Some? {
      CleanField("msgid_plural ", l.plural.value);
    }
    CleanStrs(l.indexed, l.strs);
    var ctxt, id := PrintOption("msgctxt ", l.ctxt), PrintField("msgid ", l.id);
    var plural := PrintOption("msgid_plural ", l.plural);
    AllCleanConcat(Comments(l.comments), ctxt);
    AllCleanConcat(Comments(l.comments) + ctxt, id);
    AllCleanConcat(Comments(l.comments) + ctxt + id, plural);
    AllCleanConcat(Comments(l.comments) + ctxt + id + plural, PrintStrs(l.indexed, l.strs));
  }

  lemma {:induction false} CleanPrintAll(ls: seq<Layout>)
    requires (forall i :: 0 <= i < |ls| ==> CleanTrim(ls[i])) && CleanEntries(Values(ls))
    ensures AllClean(PrintAll(ls))
  {
    if ls != [] {
      assert Values(ls)[0] == ls[0].Value();
      CleanPrint(ls[0]);
      if 1 < |ls| {
        assert Values(ls)[1..] == Values(ls[1..]);
        CleanPrintAll(ls[1..]);
      }
    }
  }

  // ---- End to end ----

  /** As whole texts, catalogues come back from parsing exactly when no field contains a line break. */
  lemma TextComesBackExactlyWhen(ls: seq<Layout>)
    requires forall i :: 0 <= i < |ls| ==> CleanTrim(ls[i])
    ensures Parse(SplitLines(Unlines(PrintAll(ls)))) == Values(ls) <==> CleanEntries(Values(ls))
  {
    if CleanEntries(Values(ls)) {
      CleanPrintAll(ls);
      SplitUndoesUnlines(PrintAll(ls));
      ParseUndoesPrint(ls);
    } else {
      ParsedFieldsAreClean(Unlines(PrintAll(ls)));
    }
  }
}
