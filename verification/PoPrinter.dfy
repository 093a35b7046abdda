/** A printer for catalogues, free in how it wraps, comments and spaces; and the parser undoing it. */
module PoPrinter {
  import opened Options
  import opened PythonText
  import opened PoCatalogue

  function Join(chunks: seq<string>): string {
    if chunks == [] then "" else chunks[0] + Join(chunks[1..])
  }

  /** The text of a field, cut into a first line and any number of continuation lines. */
  datatype Wrapped = Wrapped(first: string, more: seq<string>) {
    function Text(): string {
      first + Join(more)
    }
  }

  type BlankLine = s: string | Strip(s) == "" witness ""

  function TextOf(field: Option<Wrapped>): Option<string> {
    if field.Some? then Some(field.value.Text()) else None
  }

  function Texts(fields: seq<Wrapped>): seq<string> {
    if fields == [] then [] else Texts(fields[..|fields| - 1]) + [fields[|fields| - 1].Text()]
  }

  /** A comment, without its leading #, that is a list of flags with `fuzzy` somewhere in it. */
  predicate MarksFuzzy(text: string) {
    text != "" && text[0] == ',' && exists k, m :: 0 <= k <= m <= |text| && text[k..m] == "fuzzy"
  }

  /** One of the comments is a flag line that marks the entry fuzzy. */
  predicate AnyFuzzy(comments: seq<string>) {
    comments != [] && (MarksFuzzy(comments[0]) || AnyFuzzy(comments[1..]))
  }

  /** One entry with the typographic choices made for it. */
  datatype Layout = Layout(
    comments: seq<string>,    // each without its leading #
    ctxt: Option<Wrapped>,
    id: Wrapped,
    plural: Option<Wrapped>,
    strs: seq<Wrapped>,
    indexed: bool,            // msgstr[n] rather than msgstr
    blank: BlankLine,         // the line that separates it from the next entry
    moreBlanks: seq<BlankLine>
  ) {
    function Value(): Entry {
      Entry(TextOf(ctxt), id.Text(), TextOf(plural), Texts(strs), AnyFuzzy(comments))
    }
  }

  function Comments(comments: seq<string>): seq<string> {
    if comments == [] then [] else ["#" + comments[0]] + Comments(comments[1..])
  }

  function Quote(chunk: string): string {
    "\"" + chunk + "\""
  }

  function Quotes(chunks: seq<string>): seq<string> {
    if chunks == [] then [] else [Quote(chunks[0])] + Quotes(chunks[1..])
  }

  function Decimal(n: nat): string {
    (if n < 10 then "" else Decimal(n / 10)) + [('0' as int + n % 10) as char]
  }

  function StrKeyword(indexed: bool, n: nat): string {
    if indexed then "msgstr[" + Decimal(n) + "] " else "msgstr "
  }

  function PrintField(keyword: string, field: Wrapped): seq<string> {
    [keyword + Quote(field.first)] + Quotes(field.more)
  }

  function PrintOption(keyword: string, field: Option<Wrapped>): seq<string> {
    if field.Some? then PrintField(keyword, field.value) else []
  }

  function PrintStrs(indexed: bool, strs: seq<Wrapped>): seq<string> {
    if strs == [] then []
    else
      var n := |strs| - 1;
      PrintStrs(indexed, strs[..n]) + PrintField(StrKeyword(indexed, n), strs[n])
  }

  function Print(l: Layout): seq<string> {
    Comments(l.comments) + PrintOption("msgctxt ", l.ctxt) + PrintField("msgid ", l.id)
    + PrintOption("msgid_plural ", l.plural) + PrintStrs(l.indexed, l.strs)
  }

  /** Entries one after the other, with at least one blank line between two of them. */
  function PrintAll(ls: seq<Layout>): seq<string> {
    if ls == [] then []
    else if |ls| == 1 then Print(ls[0]) + ls[0].moreBlanks
    else Print(ls[0]) + ([ls[0].blank] + ls[0].moreBlanks) + PrintAll(ls[1..])
  }

  function Values(ls: seq<Layout>): seq<Entry> {
    if ls == [] then [] else [ls[0].Value()] + Values(ls[1..])
  }

  // ---- Reading back one line ----

  lemma UnquoteQuote(chunk: string)
    ensures Unquote(Quote(chunk)) == chunk
  {
    var q := Quote(chunk);
    assert q[0] == '"' && q[|q| - 1] == '"';
    StripFramed(q);
    assert q[1..|q| - 1] == chunk;
  }

  lemma FramedIsNotBlank(line: string)
    requires line != "" && !IsSpace(line[0]) && line[|line| - 1] == '"'
    ensures Strip(line) == line
  {
    StripFramed(line);
  }

  lemma HeadMsgctxt(line: string)
    requires StartsWith(line, "msgctxt ")
    ensures HeadOf(line) == Sets(Msgctxt, 8)
  {
    assert line[0] == line[..8][0] == 'm';
    NotStartsWith(line, "#~", 0);
    NotStartsWith(line, "#", 0);
  }

  lemma HeadMsgidPlural(line: string)
    requires StartsWith(line, "msgid_plural ")
    ensures HeadOf(line) == Sets(MsgidPlural, 13)
  {
    assert line[0] == line[..13][0] == 'm' && line[3] == line[..13][3] == 'i';
    NotStartsWith(line, "#~", 0);
    NotStartsWith(line, "#", 0);
    NotStartsWith(line, "msgctxt ", 3);
  }

  lemma HeadMsgid(line: string)
    requires StartsWith(line, "msgid ")
    ensures HeadOf(line) == Sets(Msgid, 6)
  {
    assert line[0] == line[..6][0] == 'm' && line[3] == line[..6][3] == 'i' && line[5] == line[..6][5] == ' ';
    NotStartsWith(line, "#~", 0);
    NotStartsWith(line, "#", 0);
    NotStartsWith(line, "msgctxt ", 3);
    NotStartsWith(line, "msgid_plural ", 5);
  }

  lemma HeadNotBeforeMsgstr(line: string)
    requires 6 < |line| && line[..6] == "msgstr"
    ensures HeadOf(line) == if StartsWith(line, "msgstr[") then SetsIndexed
                            else if StartsWith(line, "msgstr ") then Sets(Msgstr, 7)
                            else if StartsWith(line, "\"") then Quotation else Unknown
  {
    assert line[0] == line[..6][0] == 'm' && line[3] == line[..6][3] == 's';
    NotStartsWith(line, "#~", 0);
    NotStartsWith(line, "#", 0);
    NotStartsWith(line, "msgctxt ", 3);
    NotStartsWith(line, "msgid_plural ", 3);
    NotStartsWith(line, "msgid ", 3);
  }

  lemma NotBeginsWithM(line: string)
    requires line != "" && line[0] != 'm'
    ensures !StartsWith(line, "msgctxt ") && !StartsWith(line, "msgid_plural ") && !StartsWith(line, "msgid ")
    ensures !StartsWith(line, "msgstr[") && !StartsWith(line, "msgstr ")
  {
    NotStartsWith(line, "msgctxt ", 0);
    NotStartsWith(line, "msgid_plural ", 0);
    NotStartsWith(line, "msgid ", 0);
    NotStartsWith(line, "msgstr[", 0);
    NotStartsWith(line, "msgstr ", 0);
  }

  lemma HeadQuoted(line: string)
    requires line != "" && line[0] == '"'
    ensures HeadOf(line) == Quotation
  {
    NotStartsWith(line, "#~", 0);
    NotStartsWith(line, "#", 0);
    NotBeginsWithM(line);
  }

  lemma KeywordLine(keyword: string, chunk: string, field: Field, line: string)
    requires line == keyword + Quote(chunk) && keyword != "" && keyword[0] == 'm'
    requires HeadOf(line) == Sets(field, |keyword|)
    ensures Classify(line) == Keyword(field, chunk)
  {
    assert line[0] == keyword[0] && line[|line| - 1] == '"';
    assert line[|keyword|..] == Quote(chunk);
    FramedIsNotBlank(line);
    UnquoteQuote(chunk);
  }

  lemma ClassifyMsgctxt(chunk: string)
    ensures Classify("msgctxt " + Quote(chunk)) == Keyword(Msgctxt, chunk)
  {
    HeadMsgctxt("msgctxt " + Quote(chunk));
    KeywordLine("msgctxt ", chunk, Msgctxt, "msgctxt " + Quote(chunk));
  }

  lemma ClassifyMsgidPlural(chunk: string)
    ensures Classify("msgid_plural " + Quote(chunk)) == Keyword(MsgidPlural, chunk)
  {
    HeadMsgidPlural("msgid_plural " + Quote(chunk));
    KeywordLine("msgid_plural ", chunk, MsgidPlural, "msgid_plural " + Quote(chunk));
  }

  lemma ClassifyMsgid(chunk: string)
    ensures Classify("msgid " + Quote(chunk)) == Keyword(Msgid, chunk)
  {
    HeadMsgid("msgid " + Quote(chunk));
    KeywordLine("msgid ", chunk, Msgid, "msgid " + Quote(chunk));
  }

  lemma DecimalHasNoSpace(n: nat)
    ensures forall i :: 0 <= i < |Decimal(n)| ==> Decimal(n)[i] != ' '
  {}

  lemma {:induction false} AfterSpaceIs(a: string, b: string)
    requires forall i :: 0 <= i < |a| ==> a[i] != ' '
    ensures AfterSpace(a + " " + b) == b
  {
    if a != "" {
      assert (a + " " + b)[1..] == a[1..] + " " + b;
      AfterSpaceIs(a[1..], b);
    }
  }

  lemma ClassifyPlainMsgstr(chunk: string)
    ensures Classify("msgstr " + Quote(chunk)) == Keyword(Msgstr, chunk)
  {
    var line := "msgstr " + Quote(chunk);
    assert line[..6] == "msgstr" && line[6] == ' ' && line[..7] == "msgstr ";
    HeadNotBeforeMsgstr(line);
    NotStartsWith(line, "msgstr[", 6);
    KeywordLine("msgstr ", chunk, Msgstr, line);
  }

  lemma ClassifyIndexedMsgstr(n: nat, chunk: string)
    ensures Classify("msgstr[" + Decimal(n) + "] " + Quote(chunk)) == Keyword(Msgstr, chunk)
  {
    var index := "msgstr[" + Decimal(n) + "]";
    var line := "msgstr[" + Decimal(n) + "] " + Quote(chunk);
    assert line == index + " " + Quote(chunk);
    assert line[..6] == "msgstr" && line[..7] == "msgstr[";
    HeadNotBeforeMsgstr(line);
    DecimalHasNoSpace(n);
    AfterSpaceIs(index, Quote(chunk));
    assert line[0] == line[..6][0] && line[|line| - 1] == '"';
    FramedIsNotBlank(line);
    UnquoteQuote(chunk);
  }

  lemma ClassifyMsgstr(indexed: bool, n: nat, chunk: string)
    ensures Classify(StrKeyword(indexed, n) + Quote(chunk)) == Keyword(Msgstr, chunk)
  {
    if indexed {
      ClassifyIndexedMsgstr(n, chunk);
    } else {
      ClassifyPlainMsgstr(chunk);
    }
  }

  lemma ClassifyQuoted(chunk: string)
    ensures Classify(Quote(chunk)) == Continuation(chunk)
  {
    FramedIsNotBlank(Quote(chunk));
    HeadQuoted(Quote(chunk));
    UnquoteQuote(chunk);
  }

  lemma {:induction false} RStripKeeps(s: string)
    requires s != "" && !IsSpace(s[0])
    ensures RStrip(s) != ""
  {
    if IsSpace(s[|s| - 1]) {
      RStripKeeps(s[..|s| - 1]);
    }
  }

  lemma ClassifyComment(text: string)
    ensures Classify("#" + text).Obsolete? || Classify("#" + text).Comment?
  {
    RStripKeeps("#" + text);
  }

  lemma FuzzyOccurs(text: string)
    ensures Contains("#" + text, "fuzzy") <==> exists k, m :: 0 <= k <= m <= |text| && text[k..m] == "fuzzy"
  {
    var line := "#" + text;
    if Contains(line, "fuzzy") {
      var i :| 0 <= i <= |line| && OccursAt(line, "fuzzy", i);
      assert line[i] == 'f' by {
        assert line[i..i + 5][0] == 'f';
      }
      assert text[i - 1..i + 4] == line[i..i + 5];
    }
    if k, m :| 0 <= k <= m <= |text| && text[k..m] == "fuzzy" {
      assert line[k + 1..k + 6] == text[k..m];
      assert OccursAt(line, "fuzzy", k + 1);
    }
  }

  lemma StartsHash(text: string, c: char)
    ensures StartsWith("#" + text, ['#', c]) <==> text != "" && text[0] == c
  {
    var line := "#" + text;
    if text != "" {
      assert line[..2] == ['#', text[0]];
    }
  }

  /** A comment marks its entry exactly when it is a flag line that mentions `fuzzy`, among whatever other flags. */
  lemma CommentMarksFuzzyExactlyWhen(text: string)
    ensures Classify("#" + text) == Comment(true) <==> MarksFuzzy(text)
    ensures Classify("#" + text) == Obsolete <==> text != "" && text[0] == '~'
  {
    ClassifyComment(text);
    FuzzyOccurs(text);
    StartsHash(text, '~');
    StartsHash(text, ',');
    assert ['#', '~'] == "#~" && ['#', ','] == "#,";
  }

  // ---- Reading back one field ----

  lemma RunFrom(s: State, line: string, rest: seq<string>)
    ensures Run(s, [line] + rest) == Run(Step(s, line), rest)
  {
    assert ([line] + rest)[1..] == rest;
  }

  lemma StepQuoted(s: State, chunk: string)
    requires s.target.Some?
    ensures Step(s, Quote(chunk)) == s.(entry := ExtendField(s.entry, s.target.value, chunk))
  {
    ClassifyQuoted(chunk);
  }

  lemma RunOneChunk(s: State, chunks: seq<string>)
    requires s.target.Some? && chunks != []
    ensures Run(s, Quotes(chunks)) ==
            Run(s.(entry := ExtendField(s.entry, s.target.value, chunks[0])), Quotes(chunks[1..]))
  {
    StepQuoted(s, chunks[0]);
    RunFrom(s, Quote(chunks[0]), Quotes(chunks[1..]));
  }

  lemma ExtendByNothing(e: Entry, field: Field)
    ensures ExtendField(e, field, "") == e
  {
    assert forall t: string :: t + "" == t;
  }

  lemma ExtendTwice(e: Entry, field: Field, a: string, b: string)
    ensures ExtendField(ExtendField(e, field, a), field, b) == ExtendField(e, field, a + b)
  {
    assert forall t: string :: t + a + b == t + (a + b);
  }

  lemma {:induction false} RunChunks(s: State, chunks: seq<string>)
    requires s.target.Some?
    ensures Run(s, Quotes(chunks)) == s.(entry := ExtendField(s.entry, s.target.value, Join(chunks)))
    decreases |chunks|
  {
    if chunks == [] {
      assert ExtendField(s.entry, s.target.value, "") == s.entry by {
        ExtendByNothing(s.entry, s.target.value);
      }
    } else {
      var s' := s.(entry := ExtendField(s.entry, s.target.value, chunks[0]));
      RunOneChunk(s, chunks);
      RunChunks(s', chunks[1..]);
      ExtendTwice(s.entry, s.target.value, chunks[0], Join(chunks[1..]));
    }
  }

  lemma SetThenExtend(e: Entry, field: Field, a: string, b: string)
    ensures ExtendField(SetField(e, field, a), field, b) == SetField(e, field, a + b)
  {}

  lemma RunField(s: State, keyword: string, field: Field, text: Wrapped)
    requires Classify(keyword + Quote(text.first)) == Keyword(field, text.first)
    ensures Run(s, PrintField(keyword, text)) ==
            State(s.entries, SetField(s.entry, field, text.Text()), Some(field), true)
  {
    var lines := PrintField(keyword, text);
    assert lines[1..] == Quotes(text.more);
    RunChunks(Step(s, lines[0]), text.more);
    SetThenExtend(s.entry, field, text.first, Join(text.more));
  }

  lemma RunOneStr(s: State, before: seq<string>, indexed: bool, n: nat, text: Wrapped)
    ensures var m, r := Run(s, before), Run(s, before + PrintField(StrKeyword(indexed, n), text));
            r == State(m.entries, m.entry.(msgstrs := m.entry.msgstrs + [text.Text()]), Some(Msgstr), true)
  {
    RunConcat(s, before, PrintField(StrKeyword(indexed, n), text));
    ClassifyMsgstr(indexed, n, text.first);
    RunField(Run(s, before), StrKeyword(indexed, n), Msgstr, text);
  }

  lemma {:induction false} RunStrs(s: State, indexed: bool, strs: seq<Wrapped>)
    ensures var r := Run(s, PrintStrs(indexed, strs));
            && r.entries == s.entries && (s.started ==> r.started)
            && r.entry == s.entry.(msgstrs := s.entry.msgstrs + Texts(strs))
    decreases |strs|
  {
    if strs == [] {
      assert s.entry.msgstrs + [] == s.entry.msgstrs;
    } else {
      var n := |strs| - 1;
      RunStrs(s, indexed, strs[..n]);
      RunOneStr(s, PrintStrs(indexed, strs[..n]), indexed, n, strs[n]);
      assert s.entry.msgstrs + Texts(strs[..n]) + [strs[n].Text()] == s.entry.msgstrs + Texts(strs);
    }
  }

  lemma {:induction false} RunComments(s: State, comments: seq<string>)
    requires s.target == None
    ensures Run(s, Comments(comments)) ==
            State(s.entries, s.entry.(isFuzzy := s.entry.isFuzzy || AnyFuzzy(comments)), None,
                  s.started || AnyFuzzy(comments))
    decreases |comments|
  {
    if comments != [] {
      ClassifyComment(comments[0]);
      CommentMarksFuzzyExactlyWhen(comments[0]);
      assert Comments(comments)[1..] == Comments(comments[1..]);
      RunComments(Step(s, "#" + comments[0]), comments[1..]);
    }
  }

  // ---- Reading back entries ----

  lemma RunOption(s: State, keyword: string, field: Field, text: Option<Wrapped>)
    requires text.Some? ==> Classify(keyword + Quote(text.value.first)) == Keyword(field, text.value.first)
    ensures var r := Run(s, PrintOption(keyword, text));
            if text == None then r == s
            else r == State(s.entries, SetField(s.entry, field, text.value.Text()), Some(field), true)
  {
    if text.Some? {
      RunField(s, keyword, field, text.value);
    }
  }

  lemma RunCtxt(s: State, text: Option<Wrapped>)
    ensures var r := Run(s, PrintOption("msgctxt ", text));
            && r.entries == s.entries && (s.started ==> r.started)
            && r.entry == if text.Some? then s.entry.(msgctxt := TextOf(text)) else s.entry
  {
    if text.Some? {
      ClassifyMsgctxt(text.value.first);
    }
    RunOption(s, "msgctxt ", Msgctxt, text);
  }

  lemma RunPlural(s: State, text: Option<Wrapped>)
    ensures var r := Run(s, PrintOption("msgid_plural ", text));
            && r.entries == s.entries && (s.started ==> r.started)
            && r.entry == if text.Some? then s.entry.(msgidPlural := TextOf(text)) else s.entry
  {
    if text.Some? {
      ClassifyMsgidPlural(text.value.first);
    }
    RunOption(s, "msgid_plural ", MsgidPlural, text);
  }

  lemma RunId(s: State, text: Wrapped)
    ensures var r := Run(s, PrintField("msgid ", text));
            r.entries == s.entries && r.started && r.entry == s.entry.(msgid := text.Text())
  {
    ClassifyMsgid(text.first);
    RunField(s, "msgid ", Msgid, text);
  }

  /** An entry's lines leave exactly that entry in hand. */
  lemma RunPrint(entries: seq<Entry>, l: Layout)
    ensures var r := Run(Between(entries), Print(l));
            r.entries == entries && r.entry == l.Value() && r.started
  {
    var s0 := Between(entries);
    var part0 := Comments(l.comments);
    var part1 := part0 + PrintOption("msgctxt ", l.ctxt);
    var part2 := part1 + PrintField("msgid ", l.id);
    var part3 := part2 + PrintOption("msgid_plural ", l.plural);
    RunComments(s0, l.comments);
    RunConcat(s0, part0, PrintOption("msgctxt ", l.ctxt));
    RunCtxt(Run(s0, part0), l.ctxt);
    RunConcat(s0, part1, PrintField("msgid ", l.id));
    RunId(Run(s0, part1), l.id);
    RunConcat(s0, part2, PrintOption("msgid_plural ", l.plural));
    RunPlural(Run(s0, part2), l.plural);
    RunConcat(s0, part3, PrintStrs(l.indexed, l.strs));
    RunStrs(Run(s0, part3), l.indexed, l.strs);
    assert [] + Texts(l.strs) == Texts(l.strs);
  }

  lemma {:induction false} RunBlanks(s: State, gap: seq<BlankLine>)
    ensures Run(s, gap) == if gap == [] then s else Flush(s)
    decreases |gap|
  {
    if gap != [] {
      RunBlanks(Flush(s), gap[1..]);
    }
  }

  lemma RunPrintThenBlanks(entries: seq<Entry>, l: Layout, gap: seq<BlankLine>)
    ensures var r := Run(Between(entries), Print(l) + gap);
            && Flush(r).entries == entries + [l.Value()]
            && (gap != [] ==> r == Between(entries + [l.Value()]))
  {
    RunPrint(entries, l);
    RunConcat(Between(entries), Print(l), gap);
    RunBlanks(Run(Between(entries), Print(l)), gap);
  }

  lemma Regroup(a: seq<Entry>, e: Entry, b: seq<Entry>)
    ensures a + [e] + b == a + ([e] + b)
  {}

  lemma {:induction false} RunPrintAll(entries: seq<Entry>, ls: seq<Layout>)
    ensures Flush(Run(Between(entries), PrintAll(ls))).entries == entries + Values(ls)
    decreases |ls|
  {
    if ls == [] {
      assert entries + [] == entries;
    } else if |ls| == 1 {
      RunPrintThenBlanks(entries, ls[0], ls[0].moreBlanks);
      assert Values(ls) == [ls[0].Value()];
    } else {
      var l := ls[0];
      RunPrintThenBlanks(entries, l, [l.blank] + l.moreBlanks);
      RunConcat(Between(entries), Print(l) + ([l.blank] + l.moreBlanks), PrintAll(ls[1..]));
      RunPrintAll(entries + [l.Value()], ls[1..]);
      Regroup(entries, l.Value(), Values(ls[1..]));
    }
  }

  /** However entries are wrapped, commented and spaced, parsing gives back exactly those entries. */
  lemma ParseUndoesPrint(ls: seq<Layout>)
    ensures Parse(PrintAll(ls)) == Values(ls)
  {
    RunPrintAll([], ls);
    assert [] + Values(ls) == Values(ls);
  }
}
