/** What single lines do to a catalogue, wherever they stand, and what counts as a line. */
module PoLines {
  import opened Options
  import opened PythonText
  import opened PoCatalogue
  import opened PoPrinter

  // ---- White space ----

  predicate AllSpace(s: string) {
    forall c :: c in s ==> IsSpace(c)
  }

  lemma {:induction false} LStripPadded(pad: string, s: string)
    requires AllSpace(pad) && (s != "" ==> !IsSpace(s[0]))
    ensures LStrip(pad + s) == s
  {
    if pad == "" {
      assert pad + s == s;
    } else {
      assert (pad + s)[1..] == pad[1..] + s;
      LStripPadded(pad[1..], s);
    }
  }

  lemma {:induction false} RStripPadded(s: string, pad: string)
    requires AllSpace(pad) && (s != "" ==> !IsSpace(s[|s| - 1]))
    ensures RStrip(s + pad) == s
    decreases |pad|
  {
    if pad == "" {
      assert s + pad == s;
    } else {
      var n := |pad| - 1;
      assert (s + pad)[..|s| + n] == s + pad[..n];
      RStripPadded(s, pad[..n]);
    }
  }

  /** Stripping takes the white space off both ends, and nothing else. */
  lemma StripPadded(before: string, s: string, after: string)
    requires AllSpace(before) && AllSpace(after) && (s != "" ==> !IsSpace(s[0]) && !IsSpace(s[|s| - 1]))
    ensures Strip(before + s + after) == s
  {
    if s == "" {
      assert before + s + after == (before + after) + "";
      LStripPadded(before + after, "");
    } else {
      assert before + s + after == before + (s + after);
      LStripPadded(before, s + after);
      RStripPadded(s, after);
    }
  }

  predicate IsQuoted(s: string) {
    2 <= |s| && s[0] == '"' && s[|s| - 1] == '"'
  }

  /** The text after a keyword: without the white space around it, and without its quotes if it has both. */
  lemma UnquotePadded(before: string, s: string, after: string)
    requires AllSpace(before) && AllSpace(after) && (s != "" ==> !IsSpace(s[0]) && !IsSpace(s[|s| - 1]))
    ensures Unquote(before + s + after) == if IsQuoted(s) then s[1..|s| - 1] else s
  {
    StripPadded(before, s, after);
  }

  // ---- Lines that say nothing ----

  lemma LineBetween(a: seq<string>, line: string, b: seq<string>)
    requires forall s :: Step(s, line) == s
    ensures Parse(a + [line] + b) == Parse(a + b)
  {
    var s := Run(Between([]), a);
    RunConcat(Between([]), a + [line], b);
    RunConcat(Between([]), a, [line]);
    RunConcat(Between([]), a, b);
    assert Run(s, [line]) == s;
  }

  /** An obsolete entry's lines are skipped wherever they stand, even inside another entry. */
  lemma ObsoleteLineIsIgnored(a: seq<string>, text: string, b: seq<string>)
    ensures Parse(a + ["#~" + text] + b) == Parse(a + b)
  {
    CommentMarksFuzzyExactlyWhen("~" + text);
    assert "#" + ("~" + text) == "#~" + text;
    LineBetween(a, "#~" + text, b);
  }

  /** The line begins in none of the ways the parser knows. */
  predicate IsUnknown(line: string) {
    && (exists c :: c in line && !IsSpace(c))
    && !StartsWith(line, "#") && !StartsWith(line, "\"")
    && !StartsWith(line, "msgctxt ") && !StartsWith(line, "msgid ") && !StartsWith(line, "msgid_plural ")
    && !StartsWith(line, "msgstr ") && !StartsWith(line, "msgstr[")
  }

  lemma HasText(line: string)
    requires exists c :: c in line && !IsSpace(c)
    ensures Strip(line) != ""
  {
    var s := LStrip(line);
    assert s != "" && !IsSpace(s[0]);
    RStripKeeps(s);
  }

  lemma StartsWithShorter(line: string)
    requires StartsWith(line, "#~")
    ensures StartsWith(line, "#")
  {
    assert line[..1] == line[..2][..1];
  }

  /** A line of another form, an indented one for instance, is skipped wherever it stands. */
  lemma UnknownLineIsIgnored(a: seq<string>, line: string, b: seq<string>)
    requires IsUnknown(line)
    ensures Parse(a + [line] + b) == Parse(a + b)
  {
    HasText(line);
    if StartsWith(line, "#~") {
      StartsWithShorter(line);
    }
    assert HeadOf(line) == Unknown;
    LineBetween(a, line, b);
  }

  // ---- Comments ----

  /** A comment ends the field before it, and marks the entry if it is a flag line with `fuzzy`. */
  lemma CommentStep(s: State, text: string)
    requires text == "" || text[0] != '~'
    ensures Step(s, "#" + text) ==
            if MarksFuzzy(text) then State(s.entries, s.entry.(isFuzzy := true), None, true) else s.(target := None)
  {
    ClassifyComment(text);
    CommentMarksFuzzyExactlyWhen(text);
  }

  /** So a quoted line right after a comment belongs to nothing and is dropped. */
  lemma QuotedLineAfterComment(a: seq<string>, text: string, chunk: string, b: seq<string>)
    requires text == "" || text[0] != '~'
    ensures Parse(a + ["#" + text] + [Quote(chunk)] + b) == Parse(a + ["#" + text] + b)
  {
    var comment, quoted := ["#" + text], [Quote(chunk)];
    var s := Run(Between([]), a);
    CommentStep(s, text);
    var t := Step(s, "#" + text);
    assert Run(s, comment) == t;
    assert Run(t, quoted) == t by {
      ClassifyQuoted(chunk);
    }
    RunConcat(Between([]), a + comment + quoted, b);
    RunConcat(Between([]), a + comment, quoted);
    RunConcat(Between([]), a + comment, b);
    RunConcat(Between([]), a, comment);
  }

  // ---- Keywords ----

  lemma KeywordSets(s: State, line: string, field: Field, from: nat)
    requires line != "" && line[0] == 'm' && HeadOf(line) == Sets(field, from)
    ensures Step(s, line) == State(s.entries, SetField(s.entry, field, Unquote(line[from..])), Some(field), true)
  {
    RStripKeeps(line);
  }

  /** A keyword sets its field to what follows it, over anything the entry held there, and starts the entry. */
  lemma KeywordStep(s: State, rest: string)
    ensures Step(s, "msgctxt " + rest) ==
            State(s.entries, s.entry.(msgctxt := Some(Unquote(rest))), Some(Msgctxt), true)
    ensures Step(s, "msgid_plural " + rest) ==
            State(s.entries, s.entry.(msgidPlural := Some(Unquote(rest))), Some(MsgidPlural), true)
    ensures Step(s, "msgid " + rest) == State(s.entries, s.entry.(msgid := Unquote(rest)), Some(Msgid), true)
  {
    var ctxt, plural, id := "msgctxt " + rest, "msgid_plural " + rest, "msgid " + rest;
    assert ctxt[..8] == "msgctxt " && plural[..13] == "msgid_plural " && id[..6] == "msgid ";
    assert ctxt[8..] == plural[13..] == id[6..] == rest;
    HeadMsgctxt(ctxt);
    HeadMsgidPlural(plural);
    HeadMsgid(id);
    KeywordSets(s, ctxt, Msgctxt, 8);
    KeywordSets(s, plural, MsgidPlural, 13);
    KeywordSets(s, id, Msgid, 6);
  }

  /** A msgstr is appended. */
  lemma MsgstrStep(s: State, rest: string)
    ensures Step(s, "msgstr " + rest) ==
            State(s.entries, s.entry.(msgstrs := s.entry.msgstrs + [Unquote(rest)]), Some(Msgstr), true)
  {
    var line := "msgstr " + rest;
    assert line[..6] == "msgstr" && line[..7] == "msgstr " && line[7..] == rest && line[6] == ' ';
    NotStartsWith(line, "msgstr[", 6);
    HeadNotBeforeMsgstr(line);
    KeywordSets(s, line, Msgstr, 7);
  }

  /** So is one with an index, from the first space on; the index is not looked at. */
  lemma IndexedMsgstrStep(s: State, index: string, rest: string)
    requires forall i :: 0 <= i < |index| ==> index[i] != ' '
    ensures Step(s, "msgstr[" + index + " " + rest) ==
            State(s.entries, s.entry.(msgstrs := s.entry.msgstrs + [Unquote(rest)]), Some(Msgstr), true)
  {
    var start := "msgstr[" + index;
    var line := start + " " + rest;
    assert line[..6] == "msgstr" && line[..7] == "msgstr[";
    HeadNotBeforeMsgstr(line);
    AfterSpaceIs(start, rest);
    RStripKeeps(line);
    assert Classify(line) == Keyword(Msgstr, Unquote(rest));
  }

  lemma {:induction false} NothingAfterSpace(a: string)
    requires forall i :: 0 <= i < |a| ==> a[i] != ' '
    ensures AfterSpace(a) == ""
  {
    if a != "" {
      NothingAfterSpace(a[1..]);
    }
  }

  /** Without a space an indexed msgstr appends an empty text. */
  lemma BareMsgstrStep(s: State, index: string)
    requires forall i :: 0 <= i < |index| ==> index[i] != ' '
    ensures Step(s, "msgstr[" + index) ==
            State(s.entries, s.entry.(msgstrs := s.entry.msgstrs + [""]), Some(Msgstr), true)
  {
    var line := "msgstr[" + index;
    assert line[..6] == "msgstr" && line[..7] == "msgstr[";
    HeadNotBeforeMsgstr(line);
    NothingAfterSpace(line);
    RStripKeeps(line);
    assert Classify(line) == Keyword(Msgstr, "");
  }

  lemma ClassifyContinuation(rest: string)
    ensures Classify("\"" + rest) == Continuation(Unquote("\"" + rest))
  {
    HeadQuoted("\"" + rest);
    RStripKeeps("\"" + rest);
  }

  /** A quoted line goes to the end of the field before it, if that is there. */
  lemma ContinuationStep(s: State, rest: string)
    ensures var chunk, e, t := Unquote("\"" + rest), s.entry, Step(s, "\"" + rest);
            && t == s.(entry := t.entry)
            && (s.target == Some(Msgid) ==> t.entry == e.(msgid := e.msgid + chunk))
            && (s.target == Some(Msgctxt) && e.msgctxt.Some? ==>
                  t.entry == e.(msgctxt := Some(e.msgctxt.value + chunk)))
            && (s.target == Some(MsgidPlural) && e.msgidPlural.Some? ==>
                  t.entry == e.(msgidPlural := Some(e.msgidPlural.value + chunk)))
            && (s.target == Some(Msgstr) && e.msgstrs != [] ==>
                  var n := |e.msgstrs| - 1; t.entry == e.(msgstrs := e.msgstrs[..n] + [e.msgstrs[n] + chunk]))
            && (s.target == None ==> t == s)
  {
    ClassifyContinuation(rest);
    if s.entry.msgstrs != [] {
      var n := |s.entry.msgstrs| - 1;
      var last := s.entry.msgstrs[n] + Unquote("\"" + rest);
      assert s.entry.msgstrs[n := last] == s.entry.msgstrs[..n] + [last];
    }
  }

  // ---- Lines of a text ----

  /** The characters that end a line, by their code points. */
  const LINE_BREAKS: set<int> := {0x0A, 0x0B, 0x0C, 0x0D, 0x1C, 0x1D, 0x1E, 0x85, 0x2028, 0x2029}

  predicate HasNoBreak(s: string) {
    forall c :: c in s ==> c as int !in LINE_BREAKS
  }

  lemma {:induction false} LineEndsAt(line: string, rest: string)
    requires HasNoBreak(line) && (rest != "" ==> rest[0] as int in LINE_BREAKS)
    ensures LineLength(line + rest) == |line|
  {
    if line == "" {
      assert line + rest == rest;
    } else {
      assert (line + rest)[1..] == line[1..] + rest;
      assert line[0] in line && forall c :: c in line[1..] ==> c in line;
      LineEndsAt(line[1..], rest);
    }
  }

  lemma FirstLine(text: string, n: nat, width: nat)
    requires n == LineLength(text) < |text|
    requires width == if text[n] == '\r' && n + 1 < |text| && text[n + 1] == '\n' then 2 else 1
    ensures SplitLines(text) == [text[..n]] + SplitLines(text[n + width..])
  {}

  /** A text is cut at each of these characters, with a carriage return and a line feed counting as one. */
  lemma SplitsAtEachBreak(line: string, c: char, rest: string)
    requires HasNoBreak(line) && c as int in LINE_BREAKS && (c == '\r' ==> rest == "" || rest[0] != '\n')
    ensures SplitLines(line + [c] + rest) == [line] + SplitLines(rest)
  {
    var text := line + ([c] + rest);
    assert line + [c] + rest == text;
    LineEndsAt(line, [c] + rest);
    assert text[|line|] == c && text[..|line|] == line && text[|line| + 1..] == rest;
    FirstLine(text, |line|, 1);
  }

  lemma SplitsAtCrLf(line: string, rest: string)
    requires HasNoBreak(line)
    ensures SplitLines(line + "\r\n" + rest) == [line] + SplitLines(rest)
  {
    var text := line + ("\r\n" + rest);
    assert line + "\r\n" + rest == text;
    LineEndsAt(line, "\r\n" + rest);
    assert text[..|line|] == line && text[|line| + 2..] == rest;
    FirstLine(text, |line|, 2);
  }

  lemma LastLine(line: string)
    requires HasNoBreak(line)
    ensures SplitLines(line) == if line == "" then [] else [line]
  {
    LineEndsAt(line, "");
    assert line + "" == line;
  }

  // ---- Entries the checks look at ----

  /** An entry counts unless both its msgid is empty and it has no context. */
  predicate Counts(e: Entry) {
    e.msgid != "" || e.msgctxt.Some?
  }

  lemma KeysOfEntries(entries: seq<Entry>, ctxt: Option<string>, id: string)
    ensures (ctxt, id) in KeySet(entries) <==>
            exists e :: e in entries && Counts(e) && e.msgctxt == ctxt && e.msgid == id
  {
    if e :| e in entries && Counts(e) && e.msgctxt == ctxt && e.msgid == id {
      assert !e.IsHeader() && e.Key() == (ctxt, id);
    }
  }

  /** The check fails for exactly the entries that count and are fuzzy, or have msgstrs, all of them empty. */
  lemma CheckFailsExactlyWhen(entries: seq<Entry>)
    ensures !PassesTranslationCheck(entries) <==>
            exists e :: e in entries && Counts(e) &&
              (e.isFuzzy || (e.msgstrs != [] && forall t :: t in e.msgstrs ==> t == ""))
  {
    if !PassesTranslationCheck(entries) {
      var e :| e in entries && !e.IsHeader() && (e.isFuzzy || e.IsUntranslated());
      assert Counts(e);
    }
    if e :| e in entries && Counts(e) && (e.isFuzzy || (e.msgstrs != [] && forall t :: t in e.msgstrs ==> t == "")) {
      assert !e.IsHeader() && forall i :: 0 <= i < |e.msgstrs| ==> e.msgstrs[i] in e.msgstrs;
    }
  }
}
