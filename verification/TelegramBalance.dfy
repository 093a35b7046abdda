/** For which suffixes and limits every truncated message reads as its text, the closers and the suffix. */
module TelegramBalance {
  import opened PythonText
  import opened TelegramLimit
  import opened TelegramScanner
  import opened TelegramTokens
  import opened TelegramTruncation

  ghost predicate ReadsAsParts(tb: Tables, message: string, maxLength: nat, suffix: string) {
    MustCut(message, maxLength, suffix) ==>
      var kept := Kept(tb, message, maxLength, suffix);
      TagStream(tb, Truncated(tb, message, maxLength, suffix)) ==
        TagStream(tb, kept) + ClosingTags(OpenTags(tb, kept)) + TagStream(tb, suffix)
  }

  ghost predicate AlwaysReadsAsParts(tb: Tables, maxLength: nat, suffix: string) {
    forall message :: ReadsAsParts(tb, message, maxLength, suffix)
  }

  /** Text that ends inside a tag and cannot be cut anywhere. */
  ghost predicate IsUnsafe(text: string) {
    InTag(text) && forall p :: 1 <= p <= |text| ==> !Neutral(text[..p])
  }

  // ---- What comes after a text that ends inside a tag ----

  lemma NoNewMatch(tb: Tables, a: string, b: string)
    requires a != "" && '>' !in b && MatchTag(tb, a) == NoMatch
    ensures MatchTag(tb, a + b) == NoMatch
  {
    if MatchTag(tb, a + b).Matched? {
      NewMatchLeavesNoGt(tb, a, b);
      MatchEndsInGt(tb, a + b);
      assert false;
    }
  }

  /** Text without a `>` completes no tag. */
  lemma {:induction false} TailWithoutGt(tb: Tables, a: string, b: string)
    requires '>' !in b
    ensures Tokens(tb, a + b) == Tokens(tb, a)
    decreases |a|
  {
    if a == "" {
      assert a + b == b;
      NoTokensWithoutGt(tb, b);
    } else {
      var m := MatchTag(tb, a);
      var n := if m.Matched? then m.length else 1;
      if m.Matched? {
        MatchExtends(tb, a, b);
      } else {
        NoNewMatch(tb, a, b);
      }
      TailOfConcat(a, b, n);
      TailWithoutGt(tb, a[n..], b);
      TokensStep(tb, a);
      TokensStep(tb, a + b);
    }
  }

  /** The first `<` that is still open. */
  lemma FirstOpen(text: string) returns (i: nat)
    requires InTag(text)
    ensures i < |text| && text[i] == '<' && '>' !in text[i..] && !InTag(text[..i])
  {
    i :| i < |text| && TagOpensAt(text, i);
    while InTag(text[..i])
      invariant i < |text| && TagOpensAt(text, i)
      decreases i
    {
      var k :| 0 <= k < i && TagOpensAt(text[..i], k);
      assert forall j :: k < j < i ==> text[j] == text[..i][j];
      i := k;
    }
  }

  /** One or two characters of a tag, cut off by the next tag, are lost on the regex. */
  lemma StubIsIgnored(tb: Tables, stub: string, rest: string)
    requires 1 <= |stub| <= 2 && stub[0] == '<' && '>' !in stub && rest != "" && rest[0] == '<'
    ensures Tokens(tb, stub + rest) == Tokens(tb, rest)
  {
    var s := stub + rest;
    assert MatchTag(tb, s) == NoMatch by {
      assert s[|stub|] == '<';
      if |stub| == 2 && tb.isWord(stub[1]) {
        WordRunIs(tb, s[1..], 1);
      }
    }
    TokensStep(tb, s);
    if |stub| == 1 {
      assert s[1..] == rest;
    } else {
      var t := s[1..];
      assert t == [stub[1]] + rest;
      assert MatchTag(tb, t) == NoMatch;
      TokensStep(tb, t);
      assert t[1..] == rest;
    }
  }

  lemma TinyTagIsNeutral(text: string)
    requires |text| == 3 && text[0] == '<' && text[1] != '<' && text[2] == '>'
    ensures Neutral(text)
  {
    assert TagOpensAt(text[..1], 0);
    assert !InTag(text);
    if InEntity(text) {
      var i :| 0 <= i < 3 && EntityOpensAt(text, i);
      assert TagOpensAt(text[..i], 0);
      assert false;
    }
  }

  /** A tag before an unsafe end takes four characters: three would be a place to cut. */
  lemma TagBeforeTakesFour(tb: Tables, text: string, i: nat)
    requires IsUnsafe(text) && i < |text| && Opens(Tokens(tb, text[..i])) > 0
    ensures 4 <= i
  {
    var head := text[..i];
    TokensTake(tb, head);
    if i == 3 {
      TokensStep(tb, head);
      if MatchTag(tb, head).Matched? {
        var attrs := MatchIsSound(tb, head);
        var tag := MatchTag(tb, head).tag;
        assert |TagText(tag, attrs)| == MatchTag(tb, head).length == 3;
        assert head == TagText(tag, attrs) && head[1] == tag.name[0];
        TinyTagIsNeutral(head);
      } else {
        TokensTake(tb, head[1..]);
      }
      assert false;
    }
  }

  lemma OpenTagsAreOpened(tb: Tables, text: string)
    ensures |OpenTags(tb, text)| <= Opens(Tokens(tb, text))
  {
    var none: seq<string> := [];
    assert none + none == none;
    PopsLeaveFewer(none, none, TagStream(tb, text));
    RelevantCounts(tb, Tokens(tb, text));
  }

  lemma StubAfter(tb: Tables, head: string, stub: string, rest: string)
    requires !InTag(head) && rest != "" && rest[0] == '<'
    requires 1 <= |stub| <= 2 && stub[0] == '<' && '>' !in stub
    ensures TagStream(tb, head + stub + rest) == TagStream(tb, head) + TagStream(tb, rest)
  {
    var tail := stub + rest;
    assert head + stub + rest == head + tail;
    TagStreamConcat(tb, head, tail);
    StubIsIgnored(tb, stub, rest);
  }

  /** The tag an unsafe text ends in starts after four characters at least if a tag is open before it. */
  lemma StubOf(tb: Tables, text: string) returns (head: string, stub: string)
    requires IsUnsafe(text) && OpenTags(tb, text) != []
    ensures text == head + stub && 4 <= |head| && !InTag(head)
    ensures stub != "" && stub[0] == '<' && '>' !in stub
    ensures TagStream(tb, head) == TagStream(tb, text)
  {
    var i := FirstOpen(text);
    head, stub := text[..i], text[i..];
    assert text == head + stub;
    TailWithoutGt(tb, head, stub);
    OpenTagsAreOpened(tb, text);
    TagBeforeTakesFour(tb, text, i);
  }

  /** After at most six characters that leave a tag open, a tag that follows reads as itself. */
  lemma ShortUnsafeText(tb: Tables, text: string, rest: string)
    requires IsUnsafe(text) && |text| <= 6 && OpenTags(tb, text) != [] && rest != "" && rest[0] == '<'
    ensures TagStream(tb, text + rest) == TagStream(tb, text) + TagStream(tb, rest)
  {
    var head, stub := StubOf(tb, text);
    StubAfter(tb, head, stub, rest);
  }

  // ---- Where every message reads as its parts ----

  /** Where the kept text is unsafe, the cut is the target itself. */
  lemma UnsafeIsTarget(text: string, target: nat)
    requires target < |text| && InTag(text[..SafeCut(text, target)])
    ensures SafeCut(text, target) == target && IsUnsafe(text[..target])
  {
    SafeCutIsSafeExactlyWhen(text, target);
    forall p | 1 <= p <= target ensures !Neutral(text[..target][..p]) {
      assert text[..target][..p] == text[..p];
    }
  }

  lemma {:induction false} MarkupTakesFour(stack: seq<string>)
    requires AllSupported(stack) && stack != []
    ensures 4 <= |ClosingMarkup(stack)| && ClosingMarkup(stack)[0] == '<'
  {
    SupportedNamesAreLetters(stack[|stack| - 1]);
  }

  lemma OpenTagsTakeFour(tb: Tables, text: string)
    ensures OpenTags(tb, text) != [] ==> 4 <= |Closing(tb, text)| && Closing(tb, text)[0] == '<'
    ensures OpenTags(tb, text) == [] ==> Closing(tb, text) == ""
  {
    OpenTagsAreSupported(tb, text);
    if OpenTags(tb, text) != [] {
      MarkupTakesFour(OpenTags(tb, text));
    }
  }

  /** Kept text that ends inside a tag and has tags to close is what a retry leaves, and short of the room by four. */
  lemma UnsafeClosersCostFour(tb: Tables, message: string, maxLength: nat, suffix: string)
    requires MustCut(message, maxLength, suffix)
    requires InTag(Kept(tb, message, maxLength, suffix))
    ensures var kept := Kept(tb, message, maxLength, suffix);
            IsUnsafe(kept) && (OpenTags(tb, kept) != [] ==> |kept| + 4 <= Room(maxLength, suffix))
  {
    var target := FinalTarget(tb, message, maxLength, suffix);
    UnsafeIsTarget(message, target);
    OpenTagsTakeFour(tb, Kept(tb, message, maxLength, suffix));
    OpenTagsTakeFour(tb, message[..FirstCut(message, maxLength, suffix)]);
  }

  lemma ClosersReadBack(tb: Tables, kept: string, suffix: string)
    ensures TagStream(tb, Closing(tb, kept) + suffix) == ClosingTags(OpenTags(tb, kept)) + TagStream(tb, suffix)
  {
    OpenTagsAreSupported(tb, kept);
    ClosingMarkupReadsBack(tb, OpenTags(tb, kept));
    TagStreamConcat(tb, Closing(tb, kept), suffix);
  }

  lemma SafeKeptReadsAsParts(tb: Tables, message: string, maxLength: nat, suffix: string)
    requires MustCut(message, maxLength, suffix) && !InTag(Kept(tb, message, maxLength, suffix))
    ensures ReadsAsParts(tb, message, maxLength, suffix)
  {
    TruncationIsBalanced(tb, message, maxLength, suffix);
  }

  lemma BeforeClosers(tb: Tables, kept: string, rest: string, suffix: string)
    requires IsUnsafe(kept) && '>' !in suffix && rest == Closing(tb, kept) + suffix
    requires OpenTags(tb, kept) != [] ==> |kept| <= 6
    ensures TagStream(tb, kept + rest) == TagStream(tb, kept) + TagStream(tb, rest)
  {
    OpenTagsTakeFour(tb, kept);
    if OpenTags(tb, kept) != [] {
      ShortUnsafeText(tb, kept, rest);
    } else {
      assert rest == suffix;
      TailWithoutGt(tb, kept, suffix);
      NoTokensWithoutGt(tb, suffix);
    }
  }

  lemma Regroup<A>(a: seq<A>, b: seq<A>, c: seq<A>)
    ensures a + b + c == a + (b + c)
  {}

  lemma UnsafeKeptReadsAsParts(tb: Tables, kept: string, suffix: string)
    requires IsUnsafe(kept) && '>' !in suffix && (OpenTags(tb, kept) != [] ==> |kept| <= 6)
    ensures TagStream(tb, kept + Closing(tb, kept) + suffix) ==
            TagStream(tb, kept) + ClosingTags(OpenTags(tb, kept)) + TagStream(tb, suffix)
  {
    var closers := Closing(tb, kept);
    Regroup(kept, closers, suffix);
    BeforeClosers(tb, kept, closers + suffix, suffix);
    ClosersReadBack(tb, kept, suffix);
    Regroup(TagStream(tb, kept), ClosingTags(OpenTags(tb, kept)), TagStream(tb, suffix));
  }

  /** Nothing in the suffix can complete a tag, and no tag to close is far enough from the end. */
  lemma PlainSuffixReadsAsParts(tb: Tables, message: string, maxLength: nat, suffix: string)
    requires MustCut(message, maxLength, suffix) && '>' !in suffix && Room(maxLength, suffix) < 11
    ensures ReadsAsParts(tb, message, maxLength, suffix)
  {
    var kept := Kept(tb, message, maxLength, suffix);
    if !InTag(kept) {
      SafeKeptReadsAsParts(tb, message, maxLength, suffix);
    } else {
      UnsafeClosersCostFour(tb, message, maxLength, suffix);
      UnsafeKeptReadsAsParts(tb, kept, suffix);
    }
  }

  /** Whatever one or two unsafe characters come before it, the suffix reads the same. */
  ghost predicate HarmlessAfter(tb: Tables, room: int, suffix: string) {
    forall text :: |text| == room && IsUnsafe(text) ==> TagStream(tb, text + suffix) == TagStream(tb, suffix)
  }

  lemma {:induction false} EachTagCounts(tags: seq<Tag>)
    ensures Opens(tags) + Closes(tags) == |tags|
  {
    if tags != [] {
      EachTagCounts(tags[1..]);
    }
  }

  lemma TinyTextHasNoTags(tb: Tables, text: string)
    requires |text| < 3
    ensures TagStream(tb, text) == [] && OpenTags(tb, text) == [] && Closing(tb, text) == ""
  {
    TokensTake(tb, text);
    RelevantCounts(tb, Tokens(tb, text));
    EachTagCounts(TagStream(tb, text));
  }

  /** With room for two characters at most nothing is opened, so the first attempt stands. */
  lemma TinyRoomCut(tb: Tables, message: string, maxLength: nat, suffix: string)
    requires MustCut(message, maxLength, suffix) && Room(maxLength, suffix) < 3
    ensures FinalCut(tb, message, maxLength, suffix) == FirstCut(message, maxLength, suffix)
    ensures var kept := Kept(tb, message, maxLength, suffix);
            |kept| < 3 && Truncated(tb, message, maxLength, suffix) == kept + suffix
  {
    TinyTextHasNoTags(tb, message[..FirstCut(message, maxLength, suffix)]);
    var kept := Kept(tb, message, maxLength, suffix);
    assert kept + "" + suffix == kept + suffix;
  }

  lemma TinyRoomReadsAsParts(tb: Tables, message: string, maxLength: nat, suffix: string)
    requires MustCut(message, maxLength, suffix) && Room(maxLength, suffix) < 3
    requires HarmlessAfter(tb, Room(maxLength, suffix), suffix)
    ensures ReadsAsParts(tb, message, maxLength, suffix)
  {
    var kept := Kept(tb, message, maxLength, suffix);
    TinyRoomCut(tb, message, maxLength, suffix);
    TinyTextHasNoTags(tb, kept);
    if !InTag(kept) {
      SafeKeptReadsAsParts(tb, message, maxLength, suffix);
    } else {
      UnsafeIsTarget(message, Room(maxLength, suffix));
    }
  }

  // ---- Where some message does not ----

  /** A message that begins with an unsafe text just as long as the room. */
  function Padded(text: string, maxLength: nat): string {
    text + Letters(maxLength)
  }

  lemma CutOfPadded(text: string, maxLength: nat, suffix: string)
    requires IsUnsafe(text) && |text| == Room(maxLength, suffix) && |suffix| < maxLength
    ensures MustCut(Padded(text, maxLength), maxLength, suffix)
    ensures FirstCut(Padded(text, maxLength), maxLength, suffix) == |text|
    ensures Padded(text, maxLength)[..|text|] == text
  {
    var message := Padded(text, maxLength);
    assert forall p :: 1 <= p <= |text| ==> message[..p] == text[..p];
    SafeCutIsSafeExactlyWhen(message, |text|);
  }

  lemma TinyRoomFails(tb: Tables, maxLength: nat, suffix: string, text: string)
    requires 1 <= |text| == Room(maxLength, suffix) < 3 && IsUnsafe(text)
    requires TagStream(tb, text + suffix) != TagStream(tb, suffix)
    ensures !ReadsAsParts(tb, Padded(text, maxLength), maxLength, suffix)
  {
    CutOfPadded(text, maxLength, suffix);
    TinyRoomCut(tb, Padded(text, maxLength), maxLength, suffix);
    TinyTextHasNoTags(tb, text);
  }

  /** The name of a tag, a space, and letters: no `>`. */
  function Unfinished(tag: Tag, n: nat): string {
    "<" + tag.name + " " + Letters(n)
  }

  lemma UnfinishedIsUnsafe(tag: Tag, n: nat)
    requires tag.name in SUPPORTED_TAGS
    ensures IsUnsafe(Unfinished(tag, n)) && '>' !in Unfinished(tag, n)
  {
    var text := Unfinished(tag, n);
    SupportedNamesAreLetters(tag.name);
    assert '>' !in tag.name && '>' !in Letters(n);
    forall p | 1 <= p <= |text| ensures InTag(text[..p]) {
      assert TagOpensAt(text[..p], 0);
    }
    assert text[..|text|] == text;
  }

  lemma Swallowed(tag: Tag, n: nat, suffix: string, gt: nat)
    requires !tag.closing && gt < |suffix| && suffix[gt] == '>'
    ensures Unfinished(tag, n) + suffix == TagText(tag, " " + Letters(n) + suffix[..gt]) + suffix[gt + 1..]
  {
    assert suffix == suffix[..gt] + ">" + suffix[gt + 1..];
  }

  lemma SwallowedIsAdmissible(tb: Tables, tag: Tag, n: nat, text: string)
    requires tag.name in SUPPORTED_TAGS && '>' !in text
    ensures Admissible(tb, tag, " " + Letters(n) + text)
  {
    BareTagIsAdmissible(tb, tag);
    assert '>' !in " " + Letters(n) + text;
  }

  /** The suffix up to its first `>` becomes part of the unfinished tag. */
  lemma SwallowsSuffix(tb: Tables, tag: Tag, n: nat, suffix: string, gt: nat)
    requires tag.name in SUPPORTED_TAGS && !tag.closing
    requires gt < |suffix| && suffix[gt] == '>' && '>' !in suffix[..gt]
    ensures TagStream(tb, Unfinished(tag, n) + suffix) == [tag] + TagStream(tb, suffix[gt + 1..])
  {
    Swallowed(tag, n, suffix, gt);
    SwallowedIsAdmissible(tb, tag, n, suffix[..gt]);
    var attrs := " " + Letters(n) + suffix[..gt];
    TagReadsBack(tb, tag, attrs);
    TagStreamConcat(tb, TagText(tag, attrs), suffix[gt + 1..]);
  }

  lemma UnfinishedIsKept(tb: Tables, tag: Tag, maxLength: nat, suffix: string)
    requires tag.name in SUPPORTED_TAGS && |tag.name| == 1 && 3 <= Room(maxLength, suffix)
    ensures var text := Unfinished(tag, Room(maxLength, suffix) - 3);
            var message := Padded(text, maxLength);
            && MustCut(message, maxLength, suffix)
            && Kept(tb, message, maxLength, suffix) == text && TagStream(tb, text) == [] && OpenTags(tb, text) == []
            && Truncated(tb, message, maxLength, suffix) == text + suffix
  {
    var text := Unfinished(tag, Room(maxLength, suffix) - 3);
    UnfinishedIsUnsafe(tag, Room(maxLength, suffix) - 3);
    CutOfPadded(text, maxLength, suffix);
    NoTagWithoutGt(tb, text);
    FirstAttempt(tb, Padded(text, maxLength), maxLength, suffix, text);
    assert text + "" + suffix == text + suffix;
  }

  /** Of two unfinished tags one at least turns the suffix into something it is not. */
  lemma SuffixIsSwallowed(tb: Tables, maxLength: nat, suffix: string)
    requires '>' in suffix && 3 <= Room(maxLength, suffix)
    ensures !AlwaysReadsAsParts(tb, maxLength, suffix)
  {
    var n := Room(maxLength, suffix) - 3;
    var gt := IndexOfGt(suffix);
    SwallowsSuffix(tb, OPEN_B, n, suffix, gt);
    SwallowsSuffix(tb, OPEN_I, n, suffix, gt);
    var rest := TagStream(tb, suffix[gt + 1..]);
    assert ([OPEN_B] + rest)[0] != ([OPEN_I] + rest)[0];
    var tag := if TagStream(tb, suffix) == [OPEN_B] + rest then OPEN_I else OPEN_B;
    UnfinishedIsKept(tb, tag, maxLength, suffix);
    assert !ReadsAsParts(tb, Padded(Unfinished(tag, n), maxLength), maxLength, suffix);
  }

  /** An entity that never ends, an open `b`, and an unfinished `i`. */
  function Entangled(n: nat): string {
    "&" + (TagText(OPEN_B, "") + Unfinished(OPEN_I, n))
  }

  lemma EntangledIsUnsafe(n: nat)
    ensures IsUnsafe(Entangled(n)) && |Entangled(n)| == n + 7
  {
    var text, tail := Entangled(n), Unfinished(OPEN_I, n);
    UnfinishedIsUnsafe(OPEN_I, n);
    assert ';' !in tail && ';' !in TagText(OPEN_B, "");
    forall p | 1 <= p <= |text| ensures !Neutral(text[..p]) {
      assert EntityOpensAt(text[..p], 0);
    }
    assert text[4..] == tail && TagOpensAt(tail, 0);
    assert forall j :: 4 < j < |text| ==> text[j] == tail[j - 4];
    assert TagOpensAt(text, 4);
  }

  lemma EntangledStream(tb: Tables, n: nat, rest: string)
    ensures TagStream(tb, Entangled(n) + rest) == [OPEN_B] + TagStream(tb, Unfinished(OPEN_I, n) + rest)
  {
    var b, tail := TagText(OPEN_B, ""), Unfinished(OPEN_I, n) + rest;
    var text := Entangled(n) + rest;
    assert text == "&" + (b + tail) && text[1..] == b + tail;
    TagStreamStep(tb, text);
    BareTagIsAdmissible(tb, OPEN_B);
    TagReadsBack(tb, OPEN_B, "");
    TagStreamConcat(tb, b, tail);
  }

  const CLOSE_B := Tag(true, "b")

  lemma OneLeftOpen()
    ensures Replay([], [OPEN_B]) == ["b"] && ClosingMarkup(["b"]) == TagText(CLOSE_B, "")
  {
    assert [OPEN_B][1..] == [] && Apply([], OPEN_B) == ["b"];
    assert Replay([], [OPEN_B]) == Replay(["b"], []);
    assert ["b"][..0] == [] && Closer("b") + "" == Closer("b");
  }

  lemma EntangledLeavesB(tb: Tables, n: nat)
    ensures TagStream(tb, Entangled(n)) == [OPEN_B]
    ensures OpenTags(tb, Entangled(n)) == ["b"] && Closing(tb, Entangled(n)) == TagText(CLOSE_B, "")
  {
    EntangledStream(tb, n, "");
    UnfinishedIsUnsafe(OPEN_I, n);
    assert Entangled(n) + "" == Entangled(n) && Unfinished(OPEN_I, n) + "" == Unfinished(OPEN_I, n);
    NoTagWithoutGt(tb, Unfinished(OPEN_I, n));
    assert [OPEN_B] + [] == [OPEN_B];
    OneLeftOpen();
  }

  /** The unfinished tag swallows the closer of `b`. */
  lemma SwallowsCloser(tb: Tables, n: nat, suffix: string)
    ensures TagStream(tb, Entangled(n) + (TagText(CLOSE_B, "") + suffix)) ==
            [OPEN_B] + ([OPEN_I] + TagStream(tb, suffix))
  {
    var rest := TagText(CLOSE_B, "") + suffix;
    EntangledStream(tb, n, rest);
    assert rest[..3] == "</b" && rest[3] == '>';
    SwallowsSuffix(tb, OPEN_I, n, rest, 3);
    assert rest[4..] == suffix;
  }

  lemma CutsOfEntangled(tb: Tables, maxLength: nat, suffix: string)
    requires 11 <= Room(maxLength, suffix)
    ensures var room := Room(maxLength, suffix);
            var message := Padded(Entangled(room - 7), maxLength);
            && MustCut(message, maxLength, suffix) && FirstKept(message, maxLength, suffix) == Entangled(room - 7)
            && SafeCut(message, room - 4) == room - 4 && message[..room - 4] == Entangled(room - 11)
  {
    var room := Room(maxLength, suffix);
    var text, shorter := Entangled(room - 7), Entangled(room - 11);
    EntangledIsUnsafe(room - 7);
    EntangledIsUnsafe(room - 11);
    CutOfPadded(text, maxLength, suffix);
    var message := Padded(text, maxLength);
    assert message[..room - 4] == shorter;
    assert forall p :: 1 <= p <= room - 4 ==> message[..p] == text[..p];
    SafeCutIsSafeExactlyWhen(message, room - 4);
  }

  lemma SecondTagDiffers(tags: seq<Tag>)
    ensures [OPEN_B] + ([OPEN_I] + tags) != [OPEN_B] + ClosingTags(["b"]) + tags
  {
    assert ClosingTags(["b"]) == [CLOSE_B] + ClosingTags(["b"][..0]);
    assert ([OPEN_B] + ([OPEN_I] + tags))[1] == OPEN_I;
    assert ([OPEN_B] + ClosingTags(["b"]) + tags)[1] == CLOSE_B;
  }

  lemma EntangledDiffers(tb: Tables, message: string, maxLength: nat, suffix: string, kept: string)
    requires MustCut(message, maxLength, suffix) && Kept(tb, message, maxLength, suffix) == kept
    requires Truncated(tb, message, maxLength, suffix) == kept + TagText(CLOSE_B, "") + suffix
    requires TagStream(tb, kept) == [OPEN_B] && OpenTags(tb, kept) == ["b"]
    requires TagStream(tb, kept + (TagText(CLOSE_B, "") + suffix)) == [OPEN_B] + ([OPEN_I] + TagStream(tb, suffix))
    ensures !ReadsAsParts(tb, message, maxLength, suffix)
  {
    Regroup(kept, TagText(CLOSE_B, ""), suffix);
    SecondTagDiffers(TagStream(tb, suffix));
  }

  lemma CloserIsSwallowed(tb: Tables, maxLength: nat, suffix: string)
    requires 11 <= Room(maxLength, suffix)
    ensures !ReadsAsParts(tb, Padded(Entangled(Room(maxLength, suffix) - 7), maxLength), maxLength, suffix)
  {
    var room := Room(maxLength, suffix);
    var message, kept := Padded(Entangled(room - 7), maxLength), Entangled(room - 11);
    CutsOfEntangled(tb, maxLength, suffix);
    EntangledIsUnsafe(room - 7);
    EntangledIsUnsafe(room - 11);
    EntangledLeavesB(tb, room - 7);
    EntangledLeavesB(tb, room - 11);
    SecondAttempt(tb, message, maxLength, suffix, kept);
    SwallowsCloser(tb, room - 11, suffix);
    EntangledDiffers(tb, message, maxLength, suffix, kept);
  }

  // ---- Exactly when ----

  /**
   * Every message reads as its text, the closers and the suffix exactly when the room is too small for the
   * trouble: under eleven characters if the suffix has no `>`; otherwise none, or one or two after
   * which the suffix reads the same.
   */
  lemma ReadsAsPartsExactlyWhen(tb: Tables, maxLength: nat, suffix: string)
    ensures AlwaysReadsAsParts(tb, maxLength, suffix) <==>
            var room := Room(maxLength, suffix);
            if '>' in suffix then room < 1 || (room < 3 && HarmlessAfter(tb, room, suffix)) else room < 11
  {
    var room := Room(maxLength, suffix);
    if '>' !in suffix && room < 11 {
      forall message ensures ReadsAsParts(tb, message, maxLength, suffix) {
        if MustCut(message, maxLength, suffix) {
          PlainSuffixReadsAsParts(tb, message, maxLength, suffix);
        }
      }
    } else if room >= 11 {
      CloserIsSwallowed(tb, maxLength, suffix);
    } else if room >= 3 {
      SuffixIsSwallowed(tb, maxLength, suffix);
    } else if room >= 1 && !HarmlessAfter(tb, room, suffix) {
      var text :| |text| == room && IsUnsafe(text) && TagStream(tb, text + suffix) != TagStream(tb, suffix);
      TinyRoomFails(tb, maxLength, suffix, text);
    } else {
      forall message ensures ReadsAsParts(tb, message, maxLength, suffix) {
        if MustCut(message, maxLength, suffix) {
          TinyRoomReadsAsParts(tb, message, maxLength, suffix);
        }
      }
    }
  }
}
