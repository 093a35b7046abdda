/** Whether a truncated message fits its limit: what the retry can cost, and when it costs nothing. */
module TelegramLimit {
  import opened TelegramScanner
  import opened TelegramTokens
  import opened TelegramTruncation

  // ---- The tags of a prefix ----

  lemma {:induction false} NoTokensWithoutGt(tb: Tables, s: string)
    requires '>' !in s
    ensures Tokens(tb, s) == []
    decreases |s|
  {
    if s != "" {
      if MatchTag(tb, s).Matched? {
        MatchEndsInGt(tb, s);
        assert false;
      }
      NoTokensWithoutGt(tb, s[1..]);
    }
  }

  /** A match in `a` is the match in any longer text. */
  lemma MatchExtends(tb: Tables, a: string, b: string)
    requires MatchTag(tb, a).Matched?
    ensures MatchTag(tb, a + b) == MatchTag(tb, a)
  {
    var attrs := MatchIsSound(tb, a);
    var m := MatchTag(tb, a);
    assert (a + b)[..m.length] == a[..m.length];
    MatchIsUnique(tb, a + b, m.tag, attrs);
  }

  /** A match that only the longer text has begins a tag that `a` does not finish. */
  lemma NewMatchLeavesNoGt(tb: Tables, a: string, b: string)
    requires a != "" && MatchTag(tb, a) == NoMatch && MatchTag(tb, a + b).Matched?
    ensures '>' !in a
  {
    var attrs := MatchIsSound(tb, a + b);
    var m := MatchTag(tb, a + b);
    if m.length <= |a| {
      assert (a + b)[..m.length] == a[..m.length];
      MatchIsUnique(tb, a, m.tag, attrs);
      assert false;
    }
    forall i | 0 <= i < |a| ensures a[i] != '>' {
      TagTextEndsAtFirstGt(tb, m.tag, attrs, i);
      assert TagText(m.tag, attrs)[i] == (a + b)[..m.length][i];
    }
  }

  lemma TailOfConcat(a: string, b: string, n: nat)
    requires n <= |a|
    ensures (a + b)[n..] == a[n..] + b
  {}

  /** Wherever a text is cut, its tags so far are the first of its tags. */
  lemma {:induction false} TokensOfPrefix(tb: Tables, a: string, b: string)
    ensures Tokens(tb, a) <= Tokens(tb, a + b)
    decreases |a|
  {
    if a != "" {
      if MatchTag(tb, a).Matched? {
        var n := MatchTag(tb, a).length;
        MatchExtends(tb, a, b);
        TailOfConcat(a, b, n);
        TokensOfPrefix(tb, a[n..], b);
        TokensStep(tb, a);
        TokensStep(tb, a + b);
      } else if MatchTag(tb, a + b).Matched? {
        NewMatchLeavesNoGt(tb, a, b);
        NoTokensWithoutGt(tb, a);
      } else {
        TailOfConcat(a, b, 1);
        TokensOfPrefix(tb, a[1..], b);
      }
    }
  }

  /** The supported tags `whole` has beyond those of its prefix of length `cut`. */
  function LaterTags(tb: Tables, whole: string, cut: nat): seq<Tag>
    requires cut <= |whole|
  {
    var n := |TagStream(tb, whole[..cut])|;
    if n <= |TagStream(tb, whole)| then TagStream(tb, whole)[n..] else []
  }

  lemma TagStreamGrows(tb: Tables, a: string, b: string)
    ensures TagStream(tb, a) <= TagStream(tb, a + b)
  {
    TokensOfPrefix(tb, a, b);
    var kept, later := Tokens(tb, a), Tokens(tb, a + b)[|Tokens(tb, a)|..];
    assert Tokens(tb, a + b) == kept + later;
    RelevantConcat(tb, kept, later);
  }

  lemma TagStreamSplits(tb: Tables, whole: string, cut: nat)
    requires cut <= |whole|
    ensures TagStream(tb, whole) == TagStream(tb, whole[..cut]) + LaterTags(tb, whole, cut)
  {
    assert whole == whole[..cut] + whole[cut..];
    TagStreamGrows(tb, whole[..cut], whole[cut..]);
  }

  // ---- What tags take up ----

  function Opens(tags: seq<Tag>): nat {
    if tags == [] then 0 else (if tags[0].closing then 0 else 1) + Opens(tags[1..])
  }

  function Closes(tags: seq<Tag>): nat {
    if tags == [] then 0 else (if tags[0].closing then 1 else 0) + Closes(tags[1..])
  }

  lemma {:induction false} CountsConcat(a: seq<Tag>, b: seq<Tag>)
    ensures Opens(a + b) == Opens(a) + Opens(b) && Closes(a + b) == Closes(a) + Closes(b)
  {
    if a == [] {
      assert a + b == b;
    } else {
      assert (a + b)[1..] == a[1..] + b;
      CountsConcat(a[1..], b);
    }
  }

  lemma {:induction false} RelevantCounts(tb: Tables, tags: seq<Tag>)
    ensures Opens(Relevant(tb, tags)) <= Opens(tags) && Closes(Relevant(tb, tags)) <= Closes(tags)
  {
    if tags != [] {
      RelevantCounts(tb, tags[1..]);
      var name := tb.lower(tags[0].name);
      CountsConcat(if name in SUPPORTED_TAGS then [Tag(tags[0].closing, name)] else [], Relevant(tb, tags[1..]));
    }
  }

  lemma MatchTakes(tb: Tables, s: string)
    requires MatchTag(tb, s).Matched?
    ensures MatchTag(tb, s).length >= if MatchTag(tb, s).tag.closing then 4 else 3
  {
    var attrs := MatchIsSound(tb, s);
    assert |TagText(MatchTag(tb, s).tag, attrs)| == MatchTag(tb, s).length;
  }

  /** An opening tag takes at least three characters, a closing one four. */
  lemma {:induction false} TokensTake(tb: Tables, s: string)
    ensures 3 * Opens(Tokens(tb, s)) + 4 * Closes(Tokens(tb, s)) <= |s|
    decreases |s|
  {
    if s != "" {
      var m := MatchTag(tb, s);
      TokensTake(tb, s[if m.Matched? then m.length else 1..]);
      TokensStep(tb, s);
      if m.Matched? {
        MatchTakes(tb, s);
        CountsConcat([m.tag], Tokens(tb, s[m.length..]));
      }
    }
  }

  // ---- What a shorter cut has to close ----

  /** With `more` opened above `base`, some closing tag among `tags` finds its tag in `base`. */
  predicate Pops(base: seq<string>, more: seq<string>, tags: seq<Tag>)
    decreases |tags|
  {
    tags != [] &&
    if !tags[0].closing then Pops(base, more + [tags[0].name], tags[1..])
    else if tags[0].name in more then Pops(base, RemoveLast(more, tags[0].name), tags[1..])
    else tags[0].name in base || Pops(base, more, tags[1..])
  }

  lemma {:induction false} RemoveLastAbsent(stack: seq<string>, x: string)
    requires x !in stack
    ensures RemoveLast(stack, x) == stack
  {
    if stack != [] {
      RemoveLastAbsent(stack[..|stack| - 1], x);
    }
  }

  lemma {:induction false} RemoveLastAbove(base: seq<string>, more: seq<string>, x: string)
    requires x in more || x !in base
    ensures RemoveLast(base + more, x) == base + RemoveLast(more, x)
    decreases |more|
  {
    if more == [] {
      assert base + more == base;
      RemoveLastAbsent(base, x);
    } else {
      var n := |more| - 1;
      assert (base + more)[..|base| + n] == base + more[..n];
      assert more == more[..n] + [more[n]];
      if more[n] != x {
        RemoveLastAbove(base, more[..n], x);
        assert base + RemoveLast(more[..n], x) + [more[n]] == base + (RemoveLast(more[..n], x) + [more[n]]);
      }
    }
  }

  lemma {:induction false} RemoveLastShrinks(stack: seq<string>, x: string)
    ensures |RemoveLast(stack, x)| == if x in stack then |stack| - 1 else |stack|
  {
    if stack != [] {
      var n := |stack| - 1;
      assert stack == stack[..n] + [stack[n]];
      RemoveLastShrinks(stack[..n], x);
    }
  }

  /** Tags that pop nothing of `base` leave it in place. */
  lemma {:induction false} ReplayAbove(base: seq<string>, more: seq<string>, tags: seq<Tag>)
    requires !Pops(base, more, tags)
    ensures base <= Replay(base + more, tags)
    decreases |tags|
  {
    if tags != [] {
      var tag := tags[0];
      if !tag.closing {
        assert base + more + [tag.name] == base + (more + [tag.name]);
        ReplayAbove(base, more + [tag.name], tags[1..]);
      } else {
        RemoveLastAbove(base, more, tag.name);
        if tag.name !in more {
          RemoveLastAbsent(more, tag.name);
        }
        ReplayAbove(base, RemoveLast(more, tag.name), tags[1..]);
      }
    }
  }

  /** Every opening tag is on the stack at the end, except one at least for each thing popped. */
  lemma {:induction false} PopsLeaveFewer(base: seq<string>, more: seq<string>, tags: seq<Tag>)
    ensures |Replay(base + more, tags)| <= |base| + |more| + Opens(tags)
    ensures Pops(base, more, tags) ==>
              |Replay(base + more, tags)| < |base| + |more| + Opens(tags) && Closes(tags) > 0
    decreases |tags|
  {
    if tags != [] {
      var tag := tags[0];
      if !tag.closing {
        assert base + more + [tag.name] == base + (more + [tag.name]);
        PopsLeaveFewer(base, more + [tag.name], tags[1..]);
      } else {
        RemoveLastShrinks(base + more, tag.name);
        if tag.name in more || tag.name !in base {
          RemoveLastAbove(base, more, tag.name);
          RemoveLastShrinks(more, tag.name);
          PopsLeaveFewer(base, RemoveLast(more, tag.name), tags[1..]);
          if tag.name !in more {
            RemoveLastAbsent(more, tag.name);
          }
        } else {
          var rest := RemoveLast(base + more, tag.name);
          assert rest + [] == rest;
          PopsLeaveFewer(rest, [], tags[1..]);
        }
      }
    }
  }

  /** What comes between two cuts: the tags of the longer piece pop something the shorter one leaves open. */
  ghost predicate PopsAKeptTag(tb: Tables, whole: string, cut: nat)
    requires cut <= |whole|
  {
    Pops(OpenTags(tb, whole[..cut]), [], LaterTags(tb, whole, cut))
  }

  lemma {:induction false} DeeperStackClosesMore(stack: seq<string>, more: seq<string>)
    ensures |ClosingMarkup(stack)| <= |ClosingMarkup(stack + more)|
    decreases |more|
  {
    if more == [] {
      assert stack + more == stack;
    } else {
      assert (stack + more)[..|stack + more| - 1] == stack + more[..|more| - 1];
      DeeperStackClosesMore(stack, more[..|more| - 1]);
    }
  }

  lemma ShorterCutClosesLess(tb: Tables, whole: string, cut: nat)
    requires cut <= |whole| && !PopsAKeptTag(tb, whole, cut)
    ensures |Closing(tb, whole[..cut])| <= |Closing(tb, whole)|
  {
    var base, later := OpenTags(tb, whole[..cut]), LaterTags(tb, whole, cut);
    TagStreamSplits(tb, whole, cut);
    ReplayConcat([], TagStream(tb, whole[..cut]), later);
    assert base + [] == base;
    ReplayAbove(base, [], later);
    var all := OpenTags(tb, whole);
    assert all == base + all[|base|..];
    DeeperStackClosesMore(base, all[|base|..]);
  }

  /** To pop a kept tag and still leave one open takes `<b>`, another such tag and `</b>`. */
  lemma PoppingTakesTen(tb: Tables, whole: string, cut: nat)
    requires cut <= |whole| && PopsAKeptTag(tb, whole, cut) && OpenTags(tb, whole) != []
    ensures 10 <= |whole|
  {
    var head, later := TagStream(tb, whole[..cut]), LaterTags(tb, whole, cut);
    TagStreamSplits(tb, whole, cut);
    ReplayConcat([], head, later);
    var base := OpenTags(tb, whole[..cut]);
    assert base + [] == base;
    assert [] + [] + base == base;
    PopsLeaveFewer([], [], head);
    PopsLeaveFewer(base, [], later);
    CountsConcat(head, later);
    TokensTake(tb, whole);
    RelevantCounts(tb, Tokens(tb, whole));
  }

  // ---- The limit ----

  /** The text of the first attempt. */
  ghost function FirstKept(message: string, maxLength: int, suffix: string): string
    requires MustCut(message, maxLength, suffix)
  {
    message[..FirstCut(message, maxLength, suffix)]
  }

  /** The limit is exceeded only where the text the retry cuts away pops a tag of the text it keeps. */
  lemma OverrunPopsAKeptTag(tb: Tables, message: string, maxLength: nat, suffix: string)
    requires maxLength < |Truncated(tb, message, maxLength, suffix)|
    ensures MustCut(message, maxLength, suffix) && !FirstFits(tb, message, maxLength, suffix)
    ensures FinalCut(tb, message, maxLength, suffix) <= |FirstKept(message, maxLength, suffix)|
    ensures PopsAKeptTag(tb, FirstKept(message, maxLength, suffix), FinalCut(tb, message, maxLength, suffix))
  {
    LimitIsAboutGrowth(tb, message, maxLength, suffix);
    var whole, cut := FirstKept(message, maxLength, suffix), FinalCut(tb, message, maxLength, suffix);
    assert whole[..cut] == message[..cut];
    if !PopsAKeptTag(tb, whole, cut) {
      ShorterCutClosesLess(tb, whole, cut);
    }
  }

  lemma OverrunNeedsRoom(tb: Tables, message: string, maxLength: nat, suffix: string)
    requires maxLength < |Truncated(tb, message, maxLength, suffix)|
    ensures 10 <= Room(maxLength, suffix)
  {
    OverrunPopsAKeptTag(tb, message, maxLength, suffix);
    var whole, cut := FirstKept(message, maxLength, suffix), FinalCut(tb, message, maxLength, suffix);
    if OpenTags(tb, whole) != [] {
      PoppingTakesTen(tb, whole, cut);
    }
  }

  const OPEN_I := Tag(false, "i")
  const CLOSE_I := Tag(true, "i")

  function Letters(n: nat): (s: string)
    ensures |s| == n && '<' !in s && '>' !in s && '&' !in s && ';' !in s
  {
    seq(n, _ => 'x')
  }

  /** `<b>x...x<i>`, up to where the retry cuts. */
  function Start(n: nat): string {
    TagText(OPEN_B, "") + Letters(n) + TagText(OPEN_I, "")
  }

  /** `<b>x...x<i></i>`, up to where the first attempt cuts. */
  function Longer(n: nat): string {
    Start(n) + TagText(CLOSE_I, "")
  }

  lemma LettersInB(tb: Tables, n: nat)
    ensures var s := TagText(OPEN_B, "") + Letters(n); Neutral(s) && TagStream(tb, s) == [OPEN_B]
  {
    var b := TagText(OPEN_B, "");
    assert Neutral(b) && TagStream(tb, b) == [OPEN_B] by {
      PlainText(tb, "");
      ThenBareTag(tb, "", OPEN_B);
      assert "" + b == b;
    }
    PlainText(tb, Letters(n));
    NeutralAfter(b, Letters(n));
    TagStreamConcat(tb, b, Letters(n));
  }

  lemma StartLeavesTwoOpen(tb: Tables, n: nat)
    ensures Neutral(Start(n)) && TagStream(tb, Start(n)) == [OPEN_B, OPEN_I]
    ensures Neutral(Longer(n)) && TagStream(tb, Longer(n)) == [OPEN_B, OPEN_I] + [CLOSE_I]
  {
    LettersInB(tb, n);
    ThenBareTag(tb, TagText(OPEN_B, "") + Letters(n), OPEN_I);
    ThenBareTag(tb, Start(n), CLOSE_I);
  }

  lemma StartMarkup(tb: Tables, n: nat)
    ensures |Closing(tb, Start(n))| == 8 && |Closing(tb, Longer(n))| == 4
  {
    StartLeavesTwoOpen(tb, n);
    assert Apply([], OPEN_B) == ["b"] && Apply(["b"], OPEN_I) == ["b", "i"] && Apply(["b", "i"], CLOSE_I) == ["b"];
    assert [OPEN_B, OPEN_I][1..] == [OPEN_I] && [OPEN_I][1..] == [] && [CLOSE_I][1..] == [];
    assert Replay([], [OPEN_B, OPEN_I]) == Replay(["b"], [OPEN_I]) == Replay(["b", "i"], []);
    ReplayConcat([], [OPEN_B, OPEN_I], [CLOSE_I]);
    assert Replay(["b", "i"], [CLOSE_I]) == Replay(["b"], []);
    assert ["b", "i"][..1] == ["b"] && ["b"][..0] == [];
  }

  /** With room for ten characters or more, this message overruns the limit by four. */
  function Overrunning(maxLength: nat, suffix: string): string
    requires 10 <= Room(maxLength, suffix)
  {
    Longer(Room(maxLength, suffix) - 10) + Letters(maxLength)
  }

  lemma CutsOfOverrunning(tb: Tables, maxLength: nat, suffix: string)
    requires 10 <= Room(maxLength, suffix)
    ensures var message, n := Overrunning(maxLength, suffix), Room(maxLength, suffix) - 10;
            && MustCut(message, maxLength, suffix) && FirstKept(message, maxLength, suffix) == Longer(n)
            && SafeCut(message, Room(maxLength, suffix) - 4) == |Start(n)|
            && message[..|Start(n)|] == Start(n)
  {
    var message, n := Overrunning(maxLength, suffix), Room(maxLength, suffix) - 10;
    StartLeavesTwoOpen(tb, n);
    assert message[..|Longer(n)|] == Longer(n) && message[..|Start(n)|] == Start(n);
    SafeCutIsMaximal(message, |Longer(n)|, |Longer(n)|);
    SafeCutIsMaximal(message, |Start(n)|, |Start(n)|);
  }

  /** What the retry returns when the first attempt used up the room and its closers overran it. */
  lemma SecondAttempt(tb: Tables, message: string, maxLength: nat, suffix: string, kept: string)
    requires MustCut(message, maxLength, suffix)
    requires |FirstKept(message, maxLength, suffix)| == Room(maxLength, suffix)
    requires var markup := |Closing(tb, FirstKept(message, maxLength, suffix))|;
             0 < markup <= Room(maxLength, suffix) && SafeCut(message, Room(maxLength, suffix) - markup) == |kept|
    requires |kept| <= |message| && message[..|kept|] == kept
    ensures Truncated(tb, message, maxLength, suffix) == kept + Closing(tb, kept) + suffix
  {
    assert !FirstFits(tb, message, maxLength, suffix);
    assert FinalCut(tb, message, maxLength, suffix) == |kept|;
  }

  /** The limit can be exceeded: the retry cuts before `</i>`, which then has to be closed as well. */
  lemma RetryCanExceedTheLimit(tb: Tables, maxLength: nat, suffix: string)
    requires 10 <= Room(maxLength, suffix)
    ensures |Truncated(tb, Overrunning(maxLength, suffix), maxLength, suffix)| == maxLength + 4
  {
    var n := Room(maxLength, suffix) - 10;
    CutsOfOverrunning(tb, maxLength, suffix);
    StartMarkup(tb, n);
    SecondAttempt(tb, Overrunning(maxLength, suffix), maxLength, suffix, Start(n));
  }

  ghost predicate KeepsLimit(tb: Tables, maxLength: nat, suffix: string) {
    forall message :: |Truncated(tb, message, maxLength, suffix)| <= maxLength
  }

  /** Every message is truncated to its limit exactly when the suffix leaves room for fewer than ten characters. */
  lemma LimitIsKeptExactlyWhen(tb: Tables, maxLength: nat, suffix: string)
    ensures KeepsLimit(tb, maxLength, suffix) <==> Room(maxLength, suffix) < 10
  {
    if Room(maxLength, suffix) < 10 {
      forall message ensures |Truncated(tb, message, maxLength, suffix)| <= maxLength {
        if maxLength < |Truncated(tb, message, maxLength, suffix)| {
          OverrunNeedsRoom(tb, message, maxLength, suffix);
          assert false;
        }
      }
    } else {
      RetryCanExceedTheLimit(tb, maxLength, suffix);
    }
  }
}
