/** `parse_po`: the line-driven state machine that reads a gettext catalogue. */
module PoCatalogue {
  import opened Options
  import opened PythonText

  datatype Entry = Entry(
    msgctxt: Option<string>,
    msgid: string,
    msgidPlural: Option<string>,
    msgstrs: seq<string>,
    isFuzzy: bool
  ) {
    predicate IsHeader() {
      msgid == "" && msgctxt == None
    }

    function Key(): (Option<string>, string) {
      (msgctxt, msgid)
    }

    predicate IsUntranslated() {
      msgstrs != [] && forall i :: 0 <= i < |msgstrs| ==> msgstrs[i] == ""
    }
  }

  const FRESH := Entry(None, "", None, [], false)

  function Unquote(rest: string): string {
    var r := Strip(rest);
    if 2 <= |r| && r[0] == '"' && r[|r| - 1] == '"' then r[1..|r| - 1] else r
  }

  // ---- str.splitlines ----

  predicate IsLineBreak(c: char) {
    var n := c as int;
    10 <= n <= 13 || 28 <= n <= 30 || n == 0x85 || n == 0x2028 || n == 0x2029
  }

  /** Length of the line `text` starts with. */
  function LineLength(text: string): (n: nat)
    ensures n <= |text| && (n < |text| ==> IsLineBreak(text[n]))
    ensures forall i :: 0 <= i < n ==> !IsLineBreak(text[i])
  {
    if text == "" || IsLineBreak(text[0]) then 0 else 1 + LineLength(text[1..])
  }

  function SplitLines(text: string): seq<string>
    decreases |text|
  {
    if text == "" then []
    else
      var n := LineLength(text);
      if n == |text| then [text]
      else
        var width := if text[n] == '\r' && n + 1 < |text| && text[n + 1] == '\n' then 2 else 1;
        [text[..n]] + SplitLines(text[n + width..])
  }

  // ---- One line at a time ----

  datatype Field = Msgctxt | MsgidPlural | Msgid | Msgstr

  datatype LineKind =
    | Blank
    | Obsolete
    | Comment(fuzzy: bool)
    | Keyword(field: Field, text: string)
    | Continuation(text: string)
    | Other

  /** What follows the first space. */
  function AfterSpace(s: string): string {
    if s == "" then "" else if s[0] == ' ' then s[1..] else AfterSpace(s[1..])
  }

  /** What a line starts with: for a keyword, the field it sets and where its text begins. */
  datatype Head = ObsoleteMark | Hash | Sets(field: Field, from: nat) | SetsIndexed | Quotation | Unknown

  function HeadOf(line: string): (h: Head)
    ensures h.Sets? ==> h.from <= |line|
  {
    if StartsWith(line, "#~") then ObsoleteMark
    else if StartsWith(line, "#") then Hash
    else if StartsWith(line, "msgctxt ") then Sets(Msgctxt, 8)
    else if StartsWith(line, "msgid_plural ") then Sets(MsgidPlural, 13)
    else if StartsWith(line, "msgid ") then Sets(Msgid, 6)
    else if StartsWith(line, "msgstr[") then SetsIndexed
    else if StartsWith(line, "msgstr ") then Sets(Msgstr, 7)
    else if StartsWith(line, "\"") then Quotation
    else Unknown
  }

  function Classify(line: string): LineKind {
    if Strip(line) == "" then Blank
    else match HeadOf(line)
      case ObsoleteMark => Obsolete
      case Hash => Comment(StartsWith(line, "#,") && Contains(line, "fuzzy"))
      case Sets(field, from) => Keyword(field, Unquote(line[from..]))
      case SetsIndexed => Keyword(Msgstr, Unquote(AfterSpace(line)))
      case Quotation => Continuation(Unquote(line))
      case Unknown => Other
  }

  datatype State = State(entries: seq<Entry>, entry: Entry, target: Option<Field>, started: bool)

  /** The state between entries. */
  function Between(entries: seq<Entry>): State {
    State(entries, FRESH, None, false)
  }

  function Flush(s: State): State {
    Between(if s.started then s.entries + [s.entry] else s.entries)
  }

  function SetField(e: Entry, field: Field, text: string): Entry {
    match field
    case Msgctxt => e.(msgctxt := Some(text))
    case MsgidPlural => e.(msgidPlural := Some(text))
    case Msgid => e.(msgid := text)
    case Msgstr => e.(msgstrs := e.msgstrs + [text])
  }

  function ExtendField(e: Entry, field: Field, text: string): Entry {
    match field
    case Msgctxt => if e.msgctxt.Some? then e.(msgctxt := Some(e.msgctxt.value + text)) else e
    case MsgidPlural => if e.msgidPlural.Some? then e.(msgidPlural := Some(e.msgidPlural.value + text)) else e
    case Msgid => e.(msgid := e.msgid + text)
    case Msgstr =>
      var n := |e.msgstrs| - 1;
      if 0 <= n then e.(msgstrs := e.msgstrs[n := e.msgstrs[n] + text]) else e
  }

  function Step(s: State, line: string): State {
    match Classify(line)
    case Blank => Flush(s)
    case Obsolete => s
    case Comment(fuzzy) =>
      if fuzzy then State(s.entries, s.entry.(isFuzzy := true), None, true) else s.(target := None)
    case Keyword(field, text) => State(s.entries, SetField(s.entry, field, text), Some(field), true)
    case Continuation(text) =>
      if s.target.Some? then s.(entry := ExtendField(s.entry, s.target.value, text)) else s
    case Other => s
  }

  function Run(s: State, lines: seq<string>): State
    decreases lines
  {
    if lines == [] then s else Run(Step(s, lines[0]), lines[1..])
  }

  function Parse(lines: seq<string>): seq<Entry> {
    Flush(Run(Between([]), lines)).entries
  }

  lemma {:induction false} RunConcat(s: State, a: seq<string>, b: seq<string>)
    ensures Run(s, a + b) == Run(Run(s, a), b)
    decreases |a|
  {
    if a == [] {
      assert a + b == b;
    } else {
      assert (a + b)[1..] == a[1..] + b;
      RunConcat(Step(s, a[0]), a[1..], b);
    }
  }

  /** The variables the parser's loop and its `flush` share. */
  class Parser {
    var entries: seq<Entry>
    var entry: Entry
    var target: Option<Field>
    var started: bool

    ghost function View(): State
      reads this
    {
      State(entries, entry, target, started)
    }

    constructor ()
      ensures View() == Between([])
    {
      entries, entry, target, started := [], FRESH, None, false;
    }

    method FlushEntry()
      modifies this
      ensures View() == Flush(old(View()))
    {
      if started {
        entries := entries + [entry];
      }
      entry, target, started := FRESH, None, false;
    }

    method Continue(chunk: string)
      modifies this`entry
      ensures View() == if target.Some? then old(View()).(entry := ExtendField(old(entry), target.value, chunk))
                        else old(View())
    {
      if target == Some(Msgctxt) && entry.msgctxt.Some? {
        entry := entry.(msgctxt := Some(entry.msgctxt.value + chunk));
      } else if target == Some(MsgidPlural) && entry.msgidPlural.Some? {
        entry := entry.(msgidPlural := Some(entry.msgidPlural.value + chunk));
      } else if target == Some(Msgid) {
        entry := entry.(msgid := entry.msgid + chunk);
      } else if target == Some(Msgstr) && entry.msgstrs != [] {
        var n := |entry.msgstrs| - 1;
        entry := entry.(msgstrs := entry.msgstrs[n := entry.msgstrs[n] + chunk]);
      }
    }

    method Begin(field: Field, text: string)
      modifies this
      ensures View() == State(old(entries), SetField(old(entry), field, text), Some(field), true)
    {
      match field {
        case Msgctxt => entry := entry.(msgctxt := Some(text));
        case MsgidPlural => entry := entry.(msgidPlural := Some(text));
        case Msgid => entry := entry.(msgid := text);
        case Msgstr => entry := entry.(msgstrs := entry.msgstrs + [text]);
      }
      target, started := Some(field), true;
    }

    method ReadComment(fuzzy: bool)
      modifies this
      ensures View() == if fuzzy then State(old(entries), old(entry).(isFuzzy := true), None, true)
                        else old(View()).(target := None)
    {
      if fuzzy {
        entry := entry.(isFuzzy := true);
        started := true;
      }
      target := None;
    }

    method ReadLine(line: string)
      modifies this
      ensures View() == Step(old(View()), line)
    {
      ghost var kind := Classify(line);
      if Strip(line) == "" {
        FlushEntry();
      } else if StartsWith(line, "#~") {
        assert kind == Obsolete;
      } else if StartsWith(line, "#") {
        ReadComment(StartsWith(line, "#,") && Contains(line, "fuzzy"));
      } else if StartsWith(line, "msgctxt ") {
        Begin(Msgctxt, Unquote(line[8..]));
      } else if StartsWith(line, "msgid_plural ") {
        Begin(MsgidPlural, Unquote(line[13..]));
      } else if StartsWith(line, "msgid ") {
        Begin(Msgid, Unquote(line[6..]));
      } else if StartsWith(line, "msgstr[") {
        Begin(Msgstr, Unquote(AfterSpace(line)));
      } else if StartsWith(line, "msgstr ") {
        Begin(Msgstr, Unquote(line[7..]));
      } else if StartsWith(line, "\"") {
        Continue(Unquote(line));
      } else {
        assert kind == Other;
      }
    }
  }

  method ParsePo(text: string) returns (entries: seq<Entry>)
    ensures entries == Parse(SplitLines(text))
  {
    var parser := new Parser();
    var lines := SplitLines(text);
    for i := 0 to |lines|
      invariant Run(Between([]), lines) == Run(parser.View(), lines[i..])
    {
      assert lines[i..][1..] == lines[i + 1..];
      parser.ReadLine(lines[i]);
    }
    parser.FlushEntry();
    entries := parser.entries;
  }

  // ---- What the checks look at ----

  function KeySet(entries: seq<Entry>): set<(Option<string>, string)> {
    set e | e in entries && !e.IsHeader() :: e.Key()
  }

  /** The verdict of `check_keys_translated` on one catalogue. */
  predicate PassesTranslationCheck(entries: seq<Entry>) {
    forall e :: e in entries && !e.IsHeader() ==> !e.isFuzzy && !e.IsUntranslated()
  }
}
