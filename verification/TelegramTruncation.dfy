/** `truncate_telegram_html`: cut, close, append the suffix, and retry once when too long. */
module TelegramTruncation {
  import opened PythonText
  import opened TelegramScanner
  import opened TelegramTokens
  import opened TelegramNesting

  function Closing(tb: Tables, html: string): string {
    ClosingMarkup(OpenTags(tb, html))
  }

  function Max0(n: int): nat {
    if n < 0 then 0 else n
  }

  /** `message` is too long and the suffix leaves room for some of it. */
  predicate MustCut(message: string, maxLength: int, suffix: string) {
    maxLength < |message| && |suffix| < maxLength
  }

  /** The room left for text and closers. */
  function Room(maxLength: int, suffix: string): int {
    maxLength - |suffix|
  }

  ghost function FirstCut(message: string, maxLength: int, suffix: string): (cut: nat)
    requires MustCut(message, maxLength, suffix)
    ensures cut <= Room(maxLength, suffix) < |message|
  {
    SafeCut(message, Room(maxLength, suffix))
  }

  /** Characters of closing markup the first cut calls for. */
  ghost function FirstGrowth(tb: Tables, message: string, maxLength: int, suffix: string): nat
    requires MustCut(message, maxLength, suffix)
  {
    |Closing(tb, message[..FirstCut(message, maxLength, suffix)])|
  }

  /** The first attempt already fits: the guard of the retry is false. */
  ghost predicate FirstFits(tb: Tables, message: string, maxLength: int, suffix: string)
    requires MustCut(message, maxLength, suffix)
  {
    FirstCut(message, maxLength, suffix) + FirstGrowth(tb, message, maxLength, suffix) <= Room(maxLength, suffix)
  }

  /** How far the scan that settles the cut may look. */
  ghost function FinalTarget(tb: Tables, message: string, maxLength: int, suffix: string): (target: nat)
    requires MustCut(message, maxLength, suffix)
    ensures target <= Room(maxLength, suffix) < |message|
  {
    if FirstFits(tb, message, maxLength, suffix) then Room(maxLength, suffix)
    else Max0(Room(maxLength, suffix) - FirstGrowth(tb, message, maxLength, suffix))
  }

  ghost function FinalCut(tb: Tables, message: string, maxLength: int, suffix: string): (cut: nat)
    requires MustCut(message, maxLength, suffix)
    ensures cut <= FinalTarget(tb, message, maxLength, suffix)
  {
    SafeCut(message, FinalTarget(tb, message, maxLength, suffix))
  }

  ghost function Kept(tb: Tables, message: string, maxLength: int, suffix: string): string
    requires MustCut(message, maxLength, suffix)
  {
    message[..FinalCut(tb, message, maxLength, suffix)]
  }

  ghost function Truncated(tb: Tables, message: string, maxLength: int, suffix: string): string {
    if |message| <= maxLength then message
    else if maxLength <= |suffix| then TakeUpTo(suffix, maxLength)
    else
      var kept := Kept(tb, message, maxLength, suffix);
      kept + Closing(tb, kept) + suffix
  }

  // ---- What the caller gets ----

  /** `p` is the last place up to `target` where a cut splits no tag and no entity, or `target` if there is none. */
  ghost predicate CutsAt(text: string, target: nat, p: nat) {
    var reach := if target < |text| then target else |text|;
    if p <= reach && 1 <= p && Neutral(text[..p]) then forall q :: p < q <= reach ==> !Neutral(text[..q])
    else p == target && forall q :: 1 <= q <= reach ==> !Neutral(text[..q])
  }

  /** `result` is the text up to `last`, its closers and the suffix; `last` is `first` unless that is too long. */
  ghost predicate IsCutMessage(
      tb: Tables, message: string, maxLength: nat, suffix: string, first: nat, last: nat, result: string)
    requires |suffix| < maxLength && first <= |message| && last <= |message|
  {
    var room, markup := maxLength - |suffix|, |Closing(tb, message[..first])|;
    && CutsAt(message, room, first)
    && (first + markup <= room ==> last == first)
    && (room < first + markup ==> CutsAt(message, if markup < room then room - markup else 0, last))
    && result == message[..last] + Closing(tb, message[..last]) + suffix
  }

  lemma SafeCutCutsThere(text: string, target: nat)
    requires target <= |text|
    ensures CutsAt(text, target, SafeCut(text, target))
  {}

  lemma CutMessage(tb: Tables, message: string, maxLength: nat, suffix: string)
    requires MustCut(message, maxLength, suffix)
    ensures IsCutMessage(tb, message, maxLength, suffix, FirstCut(message, maxLength, suffix),
                         FinalCut(tb, message, maxLength, suffix), Truncated(tb, message, maxLength, suffix))
  {
    SafeCutCutsThere(message, Room(maxLength, suffix));
    SafeCutCutsThere(message, FinalTarget(tb, message, maxLength, suffix));
  }

  method TruncateTelegramHtml(tb: Tables, message: string, maxLength: int, suffix: string) returns (result: string)
    ensures result == Truncated(tb, message, maxLength, suffix)
    ensures |message| <= maxLength ==> result == message
    ensures 0 <= maxLength < |message| && maxLength <= |suffix| ==> result == suffix[..maxLength]
    ensures maxLength < 0 ==> result == suffix[..if |suffix| + maxLength < 0 then 0 else |suffix| + maxLength]
    ensures |suffix| < maxLength < |message| ==>
              exists first, last :: 0 <= first <= |message| && 0 <= last <= |message| &&
                IsCutMessage(tb, message, maxLength, suffix, first, last, result)
  {
    if MustCut(message, maxLength, suffix) {
      CutMessage(tb, message, maxLength, suffix);
    }
    if |message| <= maxLength {
      return message;
    }
    var target := maxLength - |suffix|;
    if target <= 0 {
      return TakeUpTo(suffix, maxLength);
    }
    var cut := FindSafeCutPoint(message, target);
    assert cut == FirstCut(message, maxLength, suffix);
    var truncated := message[..cut];
    var closingMarkup := CloseUnclosedTags(tb, truncated);
    result := truncated + closingMarkup + suffix;
    assert FirstFits(tb, message, maxLength, suffix) <==> |result| <= maxLength;
    if |result| > maxLength {
      var overshoot := |result| - maxLength;
      assert Max0(cut - overshoot) == FinalTarget(tb, message, maxLength, suffix);
      cut := FindSafeCutPoint(message, Max0(cut - overshoot));
      truncated := message[..cut];
      closingMarkup := CloseUnclosedTags(tb, truncated);
      result := truncated + closingMarkup + suffix;
    }
    assert cut == FinalCut(tb, message, maxLength, suffix);
  }

  // ---- Length ----

  /** Growth of the closing markup from the first cut to the second. */
  ghost function Growth(tb: Tables, message: string, maxLength: int, suffix: string): int
    requires MustCut(message, maxLength, suffix)
  {
    |Closing(tb, Kept(tb, message, maxLength, suffix))| - FirstGrowth(tb, message, maxLength, suffix)
  }

  /** Characters the second scan gives back by stopping short of its target. */
  ghost function GivenBack(tb: Tables, message: string, maxLength: int, suffix: string): nat
    requires MustCut(message, maxLength, suffix)
  {
    FinalTarget(tb, message, maxLength, suffix) - FinalCut(tb, message, maxLength, suffix)
  }

  /** The limit is kept unless, on the retry, the markup grows by more than the second cut gives back. */
  lemma LimitIsAboutGrowth(tb: Tables, message: string, maxLength: nat, suffix: string)
    ensures |Truncated(tb, message, maxLength, suffix)| <= maxLength <==>
            !MustCut(message, maxLength, suffix) || FirstFits(tb, message, maxLength, suffix)
            || Growth(tb, message, maxLength, suffix) <= GivenBack(tb, message, maxLength, suffix)
  {}

  /** The overrun is never more than that growth. */
  lemma LengthNeverExceedsGrowth(tb: Tables, message: string, maxLength: nat, suffix: string)
    ensures var r := Truncated(tb, message, maxLength, suffix);
            |r| <= maxLength + if MustCut(message, maxLength, suffix)
                               then Max0(Growth(tb, message, maxLength, suffix)) else 0
  {}

  // ---- Balance ----

  /** A truncated message: its text, the closers, the suffix; nothing open but what the suffix opens. */
  lemma TruncationIsBalanced(tb: Tables, message: string, maxLength: int, suffix: string)
    requires MustCut(message, maxLength, suffix)
    requires !InTag(Kept(tb, message, maxLength, suffix))
    ensures var r, kept := Truncated(tb, message, maxLength, suffix), Kept(tb, message, maxLength, suffix);
            && kept <= message && r == kept + Closing(tb, kept) + suffix
            && TagStream(tb, r) ==
               TagStream(tb, kept) + ClosingTags(OpenTags(tb, kept)) + TagStream(tb, suffix)
            && Closing(tb, r) == Closing(tb, suffix)
            && (Neutral(kept) ==> (Neutral(r) <==> Neutral(suffix)))
  {
    var kept := Kept(tb, message, maxLength, suffix);
    var closed := kept + Closing(tb, kept);
    ClosedFragment(tb, kept);
    TagStreamConcat(tb, closed, suffix);
    ReplayConcat([], TagStream(tb, closed), TagStream(tb, suffix));
    if Neutral(kept) {
      NeutralAfter(closed, suffix);
    }
  }

  /** Truncating a well-nested message keeps it well-nested. */
  lemma TruncationKeepsNesting(tb: Tables, message: string, maxLength: int, suffix: string)
    requires MustCut(message, maxLength, suffix)
    requires !InTag(Kept(tb, message, maxLength, suffix))
    requires WellNested(TagStream(tb, message)) && WellNested(TagStream(tb, suffix))
    ensures WellNested(TagStream(tb, Truncated(tb, message, maxLength, suffix)))
  {
    var kept := Kept(tb, message, maxLength, suffix);
    var cut := |kept|;
    assert message == kept + message[cut..];
    TagStreamConcat(tb, kept, message[cut..]);
    var f :| Word(f) == TagStream(tb, message);
    assert TagStream(tb, kept) <= Word(f);
    ClosedFragment(tb, kept);
    TruncationIsBalanced(tb, message, maxLength, suffix);
    WellNestedConcat(TagStream(tb, kept + Closing(tb, kept)), TagStream(tb, suffix));
  }

  /** The kept text ends outside every tag and entity exactly when a neutral prefix is in reach. */
  lemma KeptIsSafeExactlyWhen(tb: Tables, message: string, maxLength: int, suffix: string)
    requires MustCut(message, maxLength, suffix)
    ensures Neutral(Kept(tb, message, maxLength, suffix)) <==>
            FinalTarget(tb, message, maxLength, suffix) == 0
            || HasNeutralPrefix(message, FinalTarget(tb, message, maxLength, suffix))
  {}

  // ---- Where the promises fail ----

  lemma {:induction false} PlainText(tb: Tables, s: string)
    requires '<' !in s && '&' !in s
    ensures Neutral(s) && TagStream(tb, s) == []
  {
    if s == "" {
      assert TagStream(tb, "") == [];
    } else {
      TagStreamStep(tb, s);
      PlainText(tb, s[1..]);
    }
  }

  /** Neutral text followed by one more bare tag. */
  lemma ThenBareTag(tb: Tables, s: string, tag: Tag)
    requires Neutral(s) && tag.name in SUPPORTED_TAGS
    ensures Neutral(s + TagText(tag, ""))
    ensures TagStream(tb, s + TagText(tag, "")) == TagStream(tb, s) + [tag]
  {
    BareTagIsNeutral(tag);
    BareTagIsAdmissible(tb, tag);
    TagReadsBack(tb, tag, "");
    NeutralAfter(s, TagText(tag, ""));
    TagStreamConcat(tb, s, TagText(tag, ""));
  }

  const OPEN_B := Tag(false, "b")
  const OPEN_A := Tag(false, "a")
  const CLOSE_A := Tag(true, "a")

  const LONG_TAG := "<b yyyyyyyyyyyyyyyyyyyyyyyyyyy"
  /** `more</a>` */
  const LINK_END := "more" + TagText(CLOSE_A, "")
  /** `<a href="u">more</a>` */
  const LINK := TagText(OPEN_A, " href=\"u\"") + LINK_END

  lemma LongTagHasNoCut()
    ensures forall n :: 1 <= n <= |LONG_TAG| ==> InTag(LONG_TAG[..n])
  {
    assert forall j :: 1 <= j < |LONG_TAG| ==> LONG_TAG[j] != '>';
    forall n | 1 <= n <= |LONG_TAG| ensures InTag(LONG_TAG[..n]) {
      assert TagOpensAt(LONG_TAG[..n], 0);
    }
  }

  lemma {:induction false} NoTagWithoutGt(tb: Tables, s: string)
    requires '>' !in s
    ensures TagStream(tb, s) == []
  {
    if s == "" {
      assert TagStream(tb, "") == [];
    } else {
      TagStreamStep(tb, s);
      if MatchTag(tb, s).Matched? {
        MatchEndsInGt(tb, s);
        assert false;
      }
      NoTagWithoutGt(tb, s[1..]);
    }
  }

  lemma FirstAttempt(tb: Tables, message: string, maxLength: int, suffix: string, kept: string)
    requires MustCut(message, maxLength, suffix) && message[..FirstCut(message, maxLength, suffix)] == kept
    requires |kept| + |Closing(tb, kept)| + |suffix| <= maxLength
    ensures Truncated(tb, message, maxLength, suffix) == kept + Closing(tb, kept) + suffix
  {}

  lemma LongTagStart()
    ensures |LINK| == 20 && |LONG_TAG| > 24 && LONG_TAG[..4] == "<b y"
  {
    assert |LONG_TAG| > 24;
    assert LONG_TAG[0] == '<' && LONG_TAG[1] == 'b' && LONG_TAG[2] == ' ' && LONG_TAG[3] == 'y';
  }

  lemma UnsafeCut(tb: Tables)
    ensures Truncated(tb, LONG_TAG, 24, LINK) == "<b y" + LINK
  {
    LongTagStart();
    assert SafeCut(LONG_TAG, 4) == 4 by {
      LongTagHasNoCut();
      SafeCutIsSafeExactlyWhen(LONG_TAG, 4);
    }
    assert Closing(tb, "<b y") == "" by {
      NoTagWithoutGt(tb, "<b y");
    }
    FirstAttempt(tb, LONG_TAG, 24, LINK, "<b y");
    assert "<b y" + "" + LINK == "<b y" + LINK;
  }

  lemma LinkEnds(tb: Tables)
    ensures TagStream(tb, LINK_END) == [CLOSE_A]
  {
    PlainText(tb, "more");
    ThenBareTag(tb, "more", CLOSE_A);
  }

  lemma TagThenLinkEnd(tb: Tables, tag: Tag, attrs: string)
    requires tag.name in SUPPORTED_TAGS && Admissible(tb, tag, attrs)
    ensures TagStream(tb, TagText(tag, attrs) + LINK_END) == [tag, CLOSE_A]
  {
    LinkEnds(tb);
    TagReadsBack(tb, tag, attrs);
    TagStreamConcat(tb, TagText(tag, attrs), LINK_END);
  }

  lemma LinkStream(tb: Tables)
    ensures TagStream(tb, LINK) == [OPEN_A, CLOSE_A]
  {
    BareTagIsAdmissible(tb, OPEN_A);
    TagThenLinkEnd(tb, OPEN_A, " href=\"u\"");
  }

  lemma SwallowedLinkText()
    ensures "<b y" + LINK == TagText(OPEN_B, " y<a href=\"u\"") + LINK_END
  {}

  lemma SwallowedLinkStream(tb: Tables)
    ensures TagStream(tb, "<b y" + LINK) == [OPEN_B, CLOSE_A]
  {
    BareTagIsAdmissible(tb, OPEN_B);
    TagThenLinkEnd(tb, OPEN_B, " y<a href=\"u\"");
    SwallowedLinkText();
  }

  lemma LinkStacks()
    ensures Replay([], [OPEN_A, CLOSE_A]) == []
    ensures Replay([], [OPEN_B, CLOSE_A]) == ["b"]
    ensures ClosingMarkup(["b"]) == "</b>"
  {
    assert [OPEN_A, CLOSE_A][1..] == [CLOSE_A] && [OPEN_B, CLOSE_A][1..] == [CLOSE_A];
    assert Replay(["a"], [CLOSE_A]) == RemoveLast(["a"], "a");
    assert Replay(["b"], [CLOSE_A]) == RemoveLast(["b"], "a");
    assert ["b"][..0] == [];
  }

  /** Cut inside a tag, the text swallows the opening tag of the suffix, and `b` stays open. */
  lemma UnsafeCutCanUnbalance(tb: Tables)
    ensures Truncated(tb, LONG_TAG, 24, LINK) == "<b y" + LINK
    ensures Closing(tb, LINK) == "" && Closing(tb, "<b y" + LINK) == "</b>"
  {
    UnsafeCut(tb);
    LinkStream(tb);
    SwallowedLinkStream(tb);
    LinkStacks();
  }
}
