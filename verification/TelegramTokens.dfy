/** `_close_unclosed_tags`: the tag tokenizer and the stack of tags left open. */
module TelegramTokens {
  import opened PythonText
  import opened TelegramScanner

  const SUPPORTED_TAGS: set<string> :=
    {"b", "strong", "i", "em", "u", "ins", "s", "strike", "del", "code", "pre", "a"}

  /** The Unicode tables behind the regex class `\w` and behind `str.lower`. */
  datatype CharTables = CharTables(isWord: char -> bool, lower: string -> string) {
    /** No bracket, slash or white space is a word character; supported names are lower-case words. */
    ghost predicate Valid() {
      && (forall c :: isWord(c) ==> c != '<' && c != '>' && c != '/' && !IsSpace(c))
      && (forall t :: t in SUPPORTED_TAGS ==> lower(t) == t && forall c :: c in t ==> isWord(c))
    }
  }

  const SMALL_LETTERS := CharTables(c => 'a' <= c <= 'z', s => s)

  type Tables = t: CharTables | t.Valid() witness SMALL_LETTERS

  datatype Tag = Tag(closing: bool, name: string)

  datatype Match = NoMatch | Matched(tag: Tag, length: nat)

  // ---- The regex <(/?)(\w+)(?:\s[^>]*)?> at the start of a string ----

  /** Length of the run of word characters `s` starts with. */
  function WordRun(tb: Tables, s: string): (n: nat)
    ensures n <= |s| && (n < |s| ==> !tb.isWord(s[n]))
    ensures forall i :: 0 <= i < n ==> tb.isWord(s[i])
  {
    if s != "" && tb.isWord(s[0]) then 1 + WordRun(tb, s[1..]) else 0
  }

  /** Index of the first `>`, or `|s|`. */
  function IndexOfGt(s: string): (n: nat)
    ensures n <= |s| && (n < |s| ==> s[n] == '>')
    ensures forall i :: 0 <= i < n ==> s[i] != '>'
  {
    if s != "" && s[0] != '>' then 1 + IndexOfGt(s[1..]) else 0
  }

  /** Past the end of the part `(?:\s[^>]*)?>` at index `k`, or 0 if it does not match there. */
  function EndOfTag(s: string, k: nat): (end: nat)
    ensures end <= |s|
    ensures end != 0 ==> k < end
  {
    if |s| <= k then 0
    else if s[k] == '>' then k + 1
    else if !IsSpace(s[k]) then 0
    else
      var gt := k + 1 + IndexOfGt(s[k + 1..]);
      if gt < |s| then gt + 1 else 0
  }

  function MatchTag(tb: Tables, s: string): (m: Match)
    ensures m.Matched? ==> 0 < m.length <= |s|
  {
    if s == "" || s[0] != '<' then NoMatch
    else
      var start := if 1 < |s| && s[1] == '/' then 2 else 1;
      var k := start + WordRun(tb, s[start..]);
      var end := EndOfTag(s, k);
      if k == start || end == 0 then NoMatch else Matched(Tag(start == 2, s[start..k]), end)
  }

  function Slash(tag: Tag): string {
    if tag.closing then "/" else ""
  }

  /** What the groups and the attribute part of the regex may be. */
  ghost predicate Admissible(tb: Tables, tag: Tag, attrs: string) {
    && tag.name != ""
    && (forall i :: 0 <= i < |tag.name| ==> tb.isWord(tag.name[i]))
    && (attrs != "" ==> IsSpace(attrs[0]))
    && (forall i :: 0 <= i < |attrs| ==> attrs[i] != '>')
  }

  function TagText(tag: Tag, attrs: string): (s: string)
    ensures |s| == 2 + |Slash(tag)| + |tag.name| + |attrs|
  {
    "<" + Slash(tag) + tag.name + attrs + ">"
  }

  lemma TagTextShape(tag: Tag, attrs: string)
    ensures var text, k := TagText(tag, attrs), 1 + |Slash(tag)| + |tag.name|;
            && text[0] == '<' && (tag.closing ==> text[1] == '/')
            && text[1 + |Slash(tag)|..k] == tag.name
            && text[k..|text| - 1] == attrs && text[|text| - 1] == '>'
  {}

  lemma IndexOfGtIs(s: string, n: nat)
    requires n < |s| && s[n] == '>' && forall i :: 0 <= i < n ==> s[i] != '>'
    ensures IndexOfGt(s) == n
  {}

  lemma WordRunIs(tb: Tables, s: string, n: nat)
    requires n < |s| && !tb.isWord(s[n]) && forall i :: 0 <= i < n ==> tb.isWord(s[i])
    ensures WordRun(tb, s) == n
  {}

  lemma EndOfTagIs(s: string, attrs: string, k: nat, end: nat)
    requires end == k + |attrs| < |s| && s[k..end] == attrs && s[end] == '>'
    requires (attrs != "" ==> IsSpace(attrs[0])) && forall i :: 0 <= i < |attrs| ==> attrs[i] != '>'
    ensures EndOfTag(s, k) == end + 1
  {
    if attrs != "" {
      assert s[k] == attrs[0];
      var tail := s[k + 1..];
      assert forall i :: 0 <= i < |attrs| - 1 ==> tail[i] == attrs[i + 1];
      IndexOfGtIs(tail, |attrs| - 1);
    }
  }

  lemma NameRun(tb: Tables, s: string, name: string, start: nat, k: nat)
    requires start <= k < |s| && s[start..k] == name && !tb.isWord(s[k])
    requires forall i :: 0 <= i < |name| ==> tb.isWord(name[i])
    ensures WordRun(tb, s[start..]) == k - start
  {
    var rest := s[start..];
    assert forall i :: 0 <= i < |name| ==> rest[i] == name[i];
    WordRunIs(tb, rest, |name|);
  }

  lemma MatchOfParts(tb: Tables, s: string, tag: Tag, attrs: string, start: nat, k: nat, end: nat)
    requires Admissible(tb, tag, attrs)
    requires start == 1 + |Slash(tag)| && k == start + |tag.name| && end == k + |attrs| < |s|
    requires s[0] == '<' && (tag.closing ==> s[1] == '/')
    requires s[start..k] == tag.name && s[k..end] == attrs && s[end] == '>'
    ensures MatchTag(tb, s) == Matched(tag, end + 1)
  {
    assert s[start] == tag.name[0] && tb.isWord(s[start]);
    assert start == if 1 < |s| && s[1] == '/' then 2 else 1;
    assert s[k] == if attrs == "" then '>' else attrs[0];
    NameRun(tb, s, tag.name, start, k);
    EndOfTagIs(s, attrs, k, end);
    assert Tag(start == 2, s[start..k]) == tag;
  }

  /** Every way the regex can match here is the one match `MatchTag` reports. */
  lemma MatchIsUnique(tb: Tables, s: string, tag: Tag, attrs: string)
    requires Admissible(tb, tag, attrs) && TagText(tag, attrs) <= s
    ensures MatchTag(tb, s) == Matched(tag, |TagText(tag, attrs)|)
  {
    var text, start := TagText(tag, attrs), 1 + |Slash(tag)|;
    var k := start + |tag.name|;
    var end := |text| - 1;
    TagTextShape(tag, attrs);
    assert s[..|text|] == text;
    assert s[start..k] == text[start..k] && s[k..end] == text[k..end];
    MatchOfParts(tb, s, tag, attrs, start, k, end);
  }

  lemma EndOfTagIsSound(s: string, k: nat)
    requires EndOfTag(s, k) != 0
    ensures var end := EndOfTag(s, k);
            var attrs := s[k..end - 1];
            && s[end - 1] == '>' && (attrs != "" ==> IsSpace(attrs[0]))
            && forall i :: 0 <= i < |attrs| ==> attrs[i] != '>'
  {}

  /** Where the groups of a reported match lie. */
  lemma PartsOfMatch(tb: Tables, s: string) returns (start: nat, k: nat)
    requires MatchTag(tb, s).Matched?
    ensures var m := MatchTag(tb, s);
            && start == 1 + |Slash(m.tag)| < k < m.length == EndOfTag(s, k) <= |s|
            && s[0] == '<' && (m.tag.closing ==> s[1] == '/') && m.tag.name == s[start..k]
            && forall i :: 0 <= i < |m.tag.name| ==> tb.isWord(m.tag.name[i])
  {
    start := if 1 < |s| && s[1] == '/' then 2 else 1;
    k := start + WordRun(tb, s[start..]);
    assert s[start..k] == s[start..][..k - start];
  }

  /** A prefix put together from its parts. */
  lemma Assembled(s: string, tag: Tag, start: nat, k: nat, end: nat)
    requires start == 1 + |Slash(tag)| <= k < end <= |s|
    requires s[0] == '<' && (tag.closing ==> s[1] == '/') && tag.name == s[start..k] && s[end - 1] == '>'
    ensures s[..end] == TagText(tag, s[k..end - 1])
  {
    assert s[..start] == "<" + Slash(tag);
    assert s[..end] == s[..start] + s[start..k] + s[k..end - 1] + [s[end - 1]];
  }

  lemma MatchEndsInGt(tb: Tables, s: string)
    requires MatchTag(tb, s).Matched?
    ensures s[MatchTag(tb, s).length - 1] == '>'
  {}

  /** The reported match is one the regex allows. */
  lemma MatchIsSound(tb: Tables, s: string) returns (attrs: string)
    requires MatchTag(tb, s).Matched?
    ensures var m := MatchTag(tb, s);
            Admissible(tb, m.tag, attrs) && s[..m.length] == TagText(m.tag, attrs)
  {
    var m := MatchTag(tb, s);
    var start, k := PartsOfMatch(tb, s);
    attrs := s[k..m.length - 1];
    assert s[..m.length] == TagText(m.tag, attrs) by {
      MatchEndsInGt(tb, s);
      Assembled(s, m.tag, start, k, m.length);
    }
    EndOfTagIsSound(s, k);
  }

  /** A tag ends at its first `>`. */
  lemma TagTextEndsAtFirstGt(tb: Tables, tag: Tag, attrs: string, i: nat)
    requires Admissible(tb, tag, attrs) && i < |TagText(tag, attrs)| - 1
    ensures TagText(tag, attrs)[i] != '>'
  {}

  /** Whether a tag matches is settled by the text up to the first `>`. */
  lemma MatchIsLocal(tb: Tables, a: string, b: string)
    requires a != "" && !InTag(a)
    ensures MatchTag(tb, a + b) == MatchTag(tb, a)
  {
    if a[0] == '<' {
      assert !TagOpensAt(a, 0);
      var gt :| 0 < gt < |a| && a[gt] == '>';
      if MatchTag(tb, a).Matched? {
        var attrs := MatchIsSound(tb, a);
        var m := MatchTag(tb, a);
        assert (a + b)[..m.length] == a[..m.length];
        MatchIsUnique(tb, a + b, m.tag, attrs);
      } else if MatchTag(tb, a + b).Matched? {
        var attrs := MatchIsSound(tb, a + b);
        var m := MatchTag(tb, a + b);
        assert m.length - 1 <= gt by {
          if gt < m.length - 1 {
            TagTextEndsAtFirstGt(tb, m.tag, attrs, gt);
            assert false;
          }
        }
        assert (a + b)[..m.length] == a[..m.length];
        MatchIsUnique(tb, a, m.tag, attrs);
      }
    }
  }

  // ---- re.finditer ----

  /** The matches of the regex in `s`, leftmost first and not overlapping. */
  function Tokens(tb: Tables, s: string): seq<Tag>
    decreases |s|
  {
    if s == "" then []
    else match MatchTag(tb, s)
      case NoMatch => Tokens(tb, s[1..])
      case Matched(tag, length) => [tag] + Tokens(tb, s[length..])
  }

  lemma TokensStep(tb: Tables, s: string)
    requires s != ""
    ensures var m := MatchTag(tb, s);
            Tokens(tb, s) == if m.Matched? then [m.tag] + Tokens(tb, s[m.length..]) else Tokens(tb, s[1..])
  {}

  lemma TokensStepConcat(tb: Tables, a: string, b: string)
    requires a != "" && !InTag(a)
    ensures var m := MatchTag(tb, a);
            Tokens(tb, a + b) ==
            if m.Matched? then [m.tag] + Tokens(tb, a[m.length..] + b) else Tokens(tb, a[1..] + b)
  {
    var m := MatchTag(tb, a);
    assert MatchTag(tb, a + b) == m by {
      MatchIsLocal(tb, a, b);
    }
    if m.Matched? {
      assert (a + b)[m.length..] == a[m.length..] + b;
    } else {
      assert (a + b)[1..] == a[1..] + b;
    }
    TokensStep(tb, a + b);
  }

  /** Where no tag is open, tokenizing distributes over concatenation. */
  lemma {:induction false} TokensConcat(tb: Tables, a: string, b: string)
    requires !InTag(a)
    ensures Tokens(tb, a + b) == Tokens(tb, a) + Tokens(tb, b)
    decreases |a|
  {
    if a == "" {
      assert a + b == b;
    } else {
      var m := MatchTag(tb, a);
      var n := if m.Matched? then m.length else 1;
      TokensStepConcat(tb, a, b);
      InTagTail(a, n);
      TokensConcat(tb, a[n..], b);
    }
  }

  // ---- The stack of open tags ----

  /** The supported tags of a token stream, names lower-cased. */
  function Relevant(tb: Tables, tags: seq<Tag>): seq<Tag> {
    if tags == [] then []
    else
      var name := tb.lower(tags[0].name);
      (if name in SUPPORTED_TAGS then [Tag(tags[0].closing, name)] else []) + Relevant(tb, tags[1..])
  }

  lemma {:induction false} RelevantConcat(tb: Tables, a: seq<Tag>, b: seq<Tag>)
    ensures Relevant(tb, a + b) == Relevant(tb, a) + Relevant(tb, b)
  {
    if a == [] {
      assert a + b == b;
    } else {
      assert (a + b)[1..] == a[1..] + b;
      RelevantConcat(tb, a[1..], b);
    }
  }

  /** The supported tags that a piece of HTML contains. */
  function TagStream(tb: Tables, html: string): seq<Tag> {
    Relevant(tb, Tokens(tb, html))
  }

  lemma TagStreamStep(tb: Tables, s: string)
    requires s != ""
    ensures match MatchTag(tb, s)
            case NoMatch => TagStream(tb, s) == TagStream(tb, s[1..])
            case Matched(tag, length) =>
              var name := tb.lower(tag.name);
              TagStream(tb, s) ==
              (if name in SUPPORTED_TAGS then [Tag(tag.closing, name)] else []) + TagStream(tb, s[length..])
  {}

  lemma TagStreamConcat(tb: Tables, a: string, b: string)
    requires !InTag(a)
    ensures TagStream(tb, a + b) == TagStream(tb, a) + TagStream(tb, b)
  {
    TokensConcat(tb, a, b);
    RelevantConcat(tb, Tokens(tb, a), Tokens(tb, b));
  }

  /** `stack` without its last `x`. */
  function RemoveLast(stack: seq<string>, x: string): (r: seq<string>)
    ensures forall t :: t in r ==> t in stack
  {
    if stack == [] then []
    else
      var n := |stack| - 1;
      if stack[n] == x then stack[..n] else RemoveLast(stack[..n], x) + [stack[n]]
  }

  function Apply(stack: seq<string>, tag: Tag): seq<string> {
    if tag.closing then RemoveLast(stack, tag.name) else stack + [tag.name]
  }

  function Replay(stack: seq<string>, tags: seq<Tag>): seq<string>
    decreases tags
  {
    if tags == [] then stack else Replay(Apply(stack, tags[0]), tags[1..])
  }

  lemma {:induction false} ReplayConcat(stack: seq<string>, a: seq<Tag>, b: seq<Tag>)
    ensures Replay(stack, a + b) == Replay(Replay(stack, a), b)
    decreases |a|
  {
    if a == [] {
      assert a + b == b;
    } else {
      assert (a + b)[1..] == a[1..] + b;
      ReplayConcat(Apply(stack, a[0]), a[1..], b);
    }
  }

  /** The names of the tags `html` leaves open, outermost first. */
  function OpenTags(tb: Tables, html: string): seq<string> {
    Replay([], TagStream(tb, html))
  }

  ghost predicate AllSupported(stack: seq<string>) {
    forall t :: t in stack ==> t in SUPPORTED_TAGS
  }

  lemma {:induction false} RelevantIsSupported(tb: Tables, tags: seq<Tag>)
    ensures forall t :: t in Relevant(tb, tags) ==> t.name in SUPPORTED_TAGS
  {
    if tags != [] {
      RelevantIsSupported(tb, tags[1..]);
    }
  }

  lemma {:induction false} ReplayIsSupported(stack: seq<string>, tags: seq<Tag>)
    requires AllSupported(stack) && forall t :: t in tags ==> t.name in SUPPORTED_TAGS
    ensures AllSupported(Replay(stack, tags))
    decreases |tags|
  {
    if tags != [] {
      ReplayIsSupported(Apply(stack, tags[0]), tags[1..]);
    }
  }

  /** Only tags Telegram supports are ever left to close. */
  lemma OpenTagsAreSupported(tb: Tables, html: string)
    ensures AllSupported(OpenTags(tb, html))
  {
    RelevantIsSupported(tb, Tokens(tb, html));
    ReplayIsSupported([], TagStream(tb, html));
  }

  // ---- The closing markup ----

  function Closer(name: string): string {
    TagText(Tag(true, name), "")
  }

  /** One closing tag for each open one, innermost first. */
  function ClosingMarkup(stack: seq<string>): string {
    if stack == [] then "" else Closer(stack[|stack| - 1]) + ClosingMarkup(stack[..|stack| - 1])
  }

  /** The closing tags that markup stands for, innermost first. */
  function ClosingTags(stack: seq<string>): seq<Tag> {
    if stack == [] then [] else [Tag(true, stack[|stack| - 1])] + ClosingTags(stack[..|stack| - 1])
  }

  lemma NeutralAfterGt(s: string)
    requires s != "" && s[|s| - 1] == '>' && forall i :: 0 <= i < |s| ==> s[i] != '&'
    ensures Neutral(s)
  {}

  lemma SupportedNamesAreLetters(name: string)
    requires name in SUPPORTED_TAGS
    ensures name != "" && forall c :: c in name ==> 'a' <= c <= 'z'
  {}

  /** The text of a bare supported tag, opening or closing, leaves the scanner neutral. */
  lemma BareTagIsNeutral(tag: Tag)
    requires tag.name in SUPPORTED_TAGS
    ensures Neutral(TagText(tag, ""))
  {
    assert '&' !in tag.name by {
      SupportedNamesAreLetters(tag.name);
    }
    assert '&' !in TagText(tag, "");
    NeutralAfterGt(TagText(tag, ""));
  }

  /** Any tag the regex matches counts under its name in lower case, if that is supported, and not at all otherwise. */
  lemma TagReadsAs(tb: Tables, tag: Tag, attrs: string)
    requires Admissible(tb, tag, attrs)
    ensures var name := tb.lower(tag.name);
            TagStream(tb, TagText(tag, attrs)) == if name in SUPPORTED_TAGS then [Tag(tag.closing, name)] else []
    ensures !InTag(TagText(tag, attrs))
  {
    var s := TagText(tag, attrs);
    MatchIsUnique(tb, s, tag, attrs);
    TagStreamStep(tb, s);
    assert s[|s|..] == "" && TagStream(tb, "") == [];
    assert s[|s| - 1] == '>';
  }

  /** The text of a supported tag reads back as that tag. */
  lemma TagReadsBack(tb: Tables, tag: Tag, attrs: string)
    requires tag.name in SUPPORTED_TAGS && Admissible(tb, tag, attrs)
    ensures TagStream(tb, TagText(tag, attrs)) == [tag] && !InTag(TagText(tag, attrs))
  {
    TagReadsAs(tb, tag, attrs);
    assert tb.lower(tag.name) == tag.name;
  }

  lemma BareTagIsAdmissible(tb: Tables, tag: Tag)
    requires tag.name in SUPPORTED_TAGS
    ensures Admissible(tb, tag, "")
  {}

  /** The closing markup reads back as exactly the closing tags. */
  lemma {:induction false} ClosingMarkupReadsBack(tb: Tables, stack: seq<string>)
    requires AllSupported(stack)
    ensures Neutral(ClosingMarkup(stack))
    ensures TagStream(tb, ClosingMarkup(stack)) == ClosingTags(stack)
  {
    if stack == [] {
      assert Tokens(tb, "") == [];
    } else {
      var n := |stack| - 1;
      var tag := Tag(true, stack[n]);
      BareTagIsNeutral(tag);
      BareTagIsAdmissible(tb, tag);
      TagReadsBack(tb, tag, "");
      ClosingMarkupReadsBack(tb, stack[..n]);
      NeutralAfter(Closer(stack[n]), ClosingMarkup(stack[..n]));
      TagStreamConcat(tb, Closer(stack[n]), ClosingMarkup(stack[..n]));
    }
  }

  /** Replaying the closing tags of a stack empties it. */
  lemma {:induction false} ClosersEmptyTheStack(stack: seq<string>)
    ensures Replay(stack, ClosingTags(stack)) == []
  {
    if stack != [] {
      ClosersEmptyTheStack(stack[..|stack| - 1]);
    }
  }

  // ---- The function itself ----

  lemma WithoutThenLast(stack: seq<string>, i: nat)
    requires i < |stack| - 1
    ensures var n := |stack| - 1;
            stack[..n][..i] + stack[..n][i + 1..] + [stack[n]] == stack[..i] + stack[i + 1..]
  {}

  /** Removing the last `x` takes out the position after which there is no other. */
  lemma {:induction false} RemoveLastAt(stack: seq<string>, x: string, i: int)
    requires -1 <= i < |stack| && (forall j :: i < j < |stack| ==> stack[j] != x)
    requires i == -1 || stack[i] == x
    ensures RemoveLast(stack, x) == if i == -1 then stack else stack[..i] + stack[i + 1..]
    decreases |stack|
  {
    var n := |stack| - 1;
    if stack != [] && i != n {
      RemoveLastAt(stack[..n], x, i);
      if i != -1 {
        WithoutThenLast(stack, i);
      }
    }
  }

  /** The stack after one match has been looked at. */
  function Advance(tb: Tables, stack: seq<string>, m: Match): seq<string> {
    if m.Matched? && tb.lower(m.tag.name) in SUPPORTED_TAGS
    then Apply(stack, Tag(m.tag.closing, tb.lower(m.tag.name)))
    else stack
  }

  lemma AdvanceReplays(tb: Tables, stack: seq<string>, s: string)
    requires s != ""
    ensures var m := MatchTag(tb, s);
            var n := if m.Matched? then m.length else 1;
            Replay(stack, TagStream(tb, s)) == Replay(Advance(tb, stack, m), TagStream(tb, s[n..]))
  {
    TagStreamStep(tb, s);
    var m := MatchTag(tb, s);
    if m.Matched? {
      var tag, tags := Tag(m.tag.closing, tb.lower(m.tag.name)), TagStream(tb, s[m.length..]);
      assert ([tag] + tags)[1..] == tags && [] + tags == tags;
    }
  }

  /** The stack once all the matches in `s` have been looked at. */
  function Scan(tb: Tables, stack: seq<string>, s: string): seq<string>
    decreases |s|
  {
    if s == "" then stack
    else
      var m := MatchTag(tb, s);
      Scan(tb, Advance(tb, stack, m), s[if m.Matched? then m.length else 1..])
  }

  lemma {:induction false} ScanReplays(tb: Tables, stack: seq<string>, s: string)
    ensures Scan(tb, stack, s) == Replay(stack, TagStream(tb, s))
    decreases |s|
  {
    if s == "" {
      assert TagStream(tb, s) == [];
    } else {
      AdvanceReplays(tb, stack, s);
      var m := MatchTag(tb, s);
      ScanReplays(tb, Advance(tb, stack, m), s[if m.Matched? then m.length else 1..]);
    }
  }

  /** The search from the top of the stack, which stops at the first hit. */
  method PopLast(stack: seq<string>, tag: string) returns (popped: seq<string>)
    ensures popped == RemoveLast(stack, tag)
  {
    var i := |stack| - 1;
    while 0 <= i && stack[i] != tag
      invariant -1 <= i < |stack|
      invariant forall j :: i < j < |stack| ==> stack[j] != tag
    {
      i := i - 1;
    }
    RemoveLastAt(stack, tag, i);
    popped := if 0 <= i then stack[..i] + stack[i + 1..] else stack;
  }

  /** The body of the loop over the matches. */
  method Process(tb: Tables, stack: seq<string>, m: Match) returns (updated: seq<string>)
    ensures updated == Advance(tb, stack, m)
  {
    updated := stack;
    if m == NoMatch {
      return;
    }
    var isClose, tag := m.tag.closing, tb.lower(m.tag.name);
    if tag !in SUPPORTED_TAGS {
      return;
    }
    if !isClose {
      updated := stack + [tag];
      return;
    }
    updated := PopLast(stack, tag);
  }

  method CloseUnclosedTags(tb: Tables, html: string) returns (markup: string)
    ensures markup == ClosingMarkup(OpenTags(tb, html))
  {
    var stack: seq<string> := [];
    var rest := html;
    while rest != ""
      invariant Scan(tb, stack, rest) == Scan(tb, [], html)
      decreases |rest|
    {
      var m := MatchTag(tb, rest);
      stack := Process(tb, stack, m);
      rest := rest[if m.Matched? then m.length else 1..];
    }
    ScanReplays(tb, [], html);
    markup := ClosingMarkup(stack);
  }
}
