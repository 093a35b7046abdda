/** Well-nested markup as a grammar, and what the closing stack has to do with it. */
module TelegramNesting {
  import opened TelegramScanner
  import opened TelegramTokens

  /** A document as a tree: elements with children, followed by their siblings. */
  datatype Forest = Empty | Element(name: string, kids: Forest, rest: Forest)

  /** The tags of a document, in reading order. */
  function Word(f: Forest): seq<Tag> {
    match f
    case Empty => []
    case Element(n, kids, rest) => [Tag(false, n)] + Word(kids) + [Tag(true, n)] + Word(rest)
  }

  ghost predicate WellNested(tags: seq<Tag>) {
    exists f :: Word(f) == tags
  }

  /** Tags that some continuation makes well-nested. */
  ghost predicate Completable(tags: seq<Tag>) {
    exists f :: tags <= Word(f)
  }

  function Append(f: Forest, g: Forest): Forest {
    match f
    case Empty => g
    case Element(n, kids, rest) => Element(n, kids, Append(rest, g))
  }

  lemma {:induction false} WordAppend(f: Forest, g: Forest)
    ensures Word(Append(f, g)) == Word(f) + Word(g)
  {
    if f.Element? {
      WordAppend(f.rest, g);
    }
  }

  lemma WellNestedConcat(a: seq<Tag>, b: seq<Tag>)
    requires WellNested(a) && WellNested(b)
    ensures WellNested(a + b)
  {
    var f :| Word(f) == a;
    var g :| Word(g) == b;
    WordAppend(f, g);
  }

  lemma ReplayElement(stack: seq<string>, n: string, inner: seq<Tag>)
    ensures Replay(stack, [Tag(false, n)] + inner) == Replay(stack + [n], inner)
    ensures Replay(stack, [Tag(false, n)] + inner + [Tag(true, n)]) == RemoveLast(Replay(stack + [n], inner), n)
  {
    assert ([Tag(false, n)] + inner)[1..] == inner;
    ReplayConcat(stack, [Tag(false, n)] + inner, [Tag(true, n)]);
  }

  /** A well-nested document leaves the stack as it found it. */
  lemma {:induction false} ReplayWord(stack: seq<string>, f: Forest)
    ensures Replay(stack, Word(f)) == stack
    decreases f
  {
    match f
    case Empty =>
    case Element(n, kids, rest) =>
      ReplayConcat(stack, [Tag(false, n)] + Word(kids) + [Tag(true, n)], Word(rest));
      ReplayElement(stack, n, Word(kids));
      ReplayWord(stack + [n], kids);
      ReplayWord(stack, rest);
  }

  lemma {:induction false} ClosingTagsUnder(n: string, stack: seq<string>)
    ensures ClosingTags([n] + stack) == ClosingTags(stack) + [Tag(true, n)]
  {
    var whole := [n] + stack;
    if stack == [] {
      assert whole[..0] == [];
    } else {
      assert whole[..|whole| - 1] == [n] + stack[..|stack| - 1];
      ClosingTagsUnder(n, stack[..|stack| - 1]);
    }
  }

  lemma PassElement(stack: seq<string>, n: string, kids: Forest, q: seq<Tag>)
    ensures Replay(stack, [Tag(false, n)] + Word(kids) + [Tag(true, n)] + q) == Replay(stack, q)
  {
    ReplayConcat(stack, [Tag(false, n)] + Word(kids) + [Tag(true, n)], q);
    ReplayElement(stack, n, Word(kids));
    ReplayWord(stack + [n], kids);
  }

  /** A short prefix of an element and its siblings ends among its children. */
  lemma PrefixInside(p: seq<Tag>, n: string, kids: Forest, rest: Forest)
    requires p != [] && p <= Word(Element(n, kids, rest)) && |p| <= 1 + |Word(kids)|
    ensures p == [Tag(false, n)] + p[1..] && p[1..] <= Word(kids)
  {
    var inner, whole := Word(kids), Word(Element(n, kids, rest));
    assert whole == [Tag(false, n)] + (inner + [Tag(true, n)] + Word(rest));
    assert p == whole[..|p|];
    assert p[1..] == inner[..|p| - 1];
  }

  /** A longer one passes the element. */
  lemma PrefixOutside(p: seq<Tag>, n: string, kids: Forest, rest: Forest)
    requires p <= Word(Element(n, kids, rest)) && 1 + |Word(kids)| < |p|
    ensures var k := 2 + |Word(kids)|;
            p == [Tag(false, n)] + Word(kids) + [Tag(true, n)] + p[k..] && p[k..] <= Word(rest)
  {
    var element := [Tag(false, n)] + Word(kids) + [Tag(true, n)];
    var k := |element|;
    assert Word(Element(n, kids, rest)) == element + Word(rest);
    assert p == (element + Word(rest))[..|p|] == element + Word(rest)[..|p| - k];
    assert p[k..] == Word(rest)[..|p| - k];
  }

  /** A prefix of a document ends inside its first element, or passes it. */
  lemma PrefixSplits(p: seq<Tag>, n: string, kids: Forest, rest: Forest) returns (inside: bool, q: seq<Tag>)
    requires p != [] && p <= Word(Element(n, kids, rest))
    ensures inside ==> p == [Tag(false, n)] + q && q <= Word(kids)
    ensures !inside ==> p == [Tag(false, n)] + Word(kids) + [Tag(true, n)] + q && q <= Word(rest)
    ensures |q| < |p|
  {
    inside := |p| <= 1 + |Word(kids)|;
    if inside {
      PrefixInside(p, n, kids, rest);
      q := p[1..];
    } else {
      PrefixOutside(p, n, kids, rest);
      q := p[2 + |Word(kids)|..];
    }
  }

  lemma Regroup(a: seq<string>, b: seq<string>, c: seq<string>)
    ensures a + b + c == a + (b + c)
  {}

  lemma ReplayOpened(stack: seq<string>, n: string, q: seq<Tag>)
    ensures Replay(stack, [Tag(false, n)] + q) == Replay(stack + [n], q)
  {
    assert ([Tag(false, n)] + q)[1..] == q;
  }

  lemma ReplayInside(stack: seq<string>, n: string, q: seq<Tag>)
    requires Replay(stack + [n], q) == stack + [n] + Replay([], q) && Replay([n], q) == [n] + Replay([], q)
    ensures Replay(stack, [Tag(false, n)] + q) == stack + Replay([], [Tag(false, n)] + q)
  {
    assert [] + [n] == [n];
    ReplayOpened(stack, n, q);
    ReplayOpened([], n, q);
    Regroup(stack, [n], Replay([], q));
  }

  /** A prefix of a document touches only what it pushed itself. */
  lemma {:induction false} ReplayPrefixUnder(stack: seq<string>, p: seq<Tag>, f: Forest)
    requires p <= Word(f)
    ensures Replay(stack, p) == stack + Replay([], p)
    decreases f
  {
    if p != [] {
      var Element(n, kids, rest) := f;
      var inside, q := PrefixSplits(p, n, kids, rest);
      if inside {
        ReplayPrefixUnder(stack + [n], q, kids);
        ReplayPrefixUnder([n], q, kids);
        ReplayInside(stack, n, q);
      } else {
        PassElement(stack, n, kids, q);
        PassElement([], n, kids, q);
        ReplayPrefixUnder(stack, q, rest);
      }
    }
  }

  lemma WrapCompleted(n: string, q: seq<Tag>, closers: seq<Tag>, h: Forest)
    requires q + closers == Word(h)
    ensures [Tag(false, n)] + q + (closers + [Tag(true, n)]) == Word(Element(n, h, Empty))
  {}

  lemma ContinueCompleted(n: string, kids: Forest, q: seq<Tag>, closers: seq<Tag>, h: Forest)
    requires q + closers == Word(h)
    ensures [Tag(false, n)] + Word(kids) + [Tag(true, n)] + q + closers == Word(Element(n, kids, h))
  {}

  /** Any prefix of a document is completed by the closers of its stack, innermost first. */
  lemma {:induction false} PrefixIsCompleted(p: seq<Tag>, f: Forest) returns (g: Forest)
    requires p <= Word(f)
    ensures p + ClosingTags(Replay([], p)) == Word(g)
    decreases f
  {
    if p == [] {
      return Empty;
    }
    var Element(n, kids, rest) := f;
    var inside, q := PrefixSplits(p, n, kids, rest);
    if inside {
      var h := PrefixIsCompleted(q, kids);
      ReplayElement([], n, q);
      assert [] + [n] == [n];
      ReplayPrefixUnder([n], q, kids);
      ClosingTagsUnder(n, Replay([], q));
      g := Element(n, h, Empty);
      WrapCompleted(n, q, ClosingTags(Replay([], q)), h);
    } else {
      var h := PrefixIsCompleted(q, rest);
      PassElement([], n, kids, q);
      g := Element(n, kids, h);
      ContinueCompleted(n, kids, q, ClosingTags(Replay([], q)), h);
    }
  }

  /** The emitted closers make a fragment well-nested exactly when anything can. */
  lemma ClosersCompleteExactlyWhen(tags: seq<Tag>)
    ensures WellNested(tags + ClosingTags(Replay([], tags))) <==> Completable(tags)
  {
    if Completable(tags) {
      var f :| tags <= Word(f);
      var g := PrefixIsCompleted(tags, f);
    }
    if WellNested(tags + ClosingTags(Replay([], tags))) {
      var f :| Word(f) == tags + ClosingTags(Replay([], tags));
      assert tags <= Word(f);
    }
  }

  /** A well-nested text has nothing to close. */
  lemma WellNestedLeavesNothingOpen(tb: Tables, html: string)
    requires WellNested(TagStream(tb, html))
    ensures OpenTags(tb, html) == [] && ClosingMarkup(OpenTags(tb, html)) == ""
  {
    var f :| Word(f) == TagStream(tb, html);
    ReplayWord([], f);
  }

  /** What `_close_unclosed_tags` promises of a fragment that ends outside any tag. */
  lemma ClosedFragment(tb: Tables, html: string)
    requires !InTag(html)
    ensures var closed := html + ClosingMarkup(OpenTags(tb, html));
            && TagStream(tb, closed) == TagStream(tb, html) + ClosingTags(OpenTags(tb, html))
            && OpenTags(tb, closed) == [] && ClosingMarkup(OpenTags(tb, closed)) == ""
            && (WellNested(TagStream(tb, closed)) <==> Completable(TagStream(tb, html)))
            && (Neutral(html) ==> Neutral(closed)) && !InTag(closed)
  {
    var open := OpenTags(tb, html);
    OpenTagsAreSupported(tb, html);
    ClosingMarkupReadsBack(tb, open);
    TagStreamConcat(tb, html, ClosingMarkup(open));
    ReplayConcat([], TagStream(tb, html), ClosingTags(open));
    ClosersEmptyTheStack(open);
    ClosersCompleteExactlyWhen(TagStream(tb, html));
    InTagAfter(html, ClosingMarkup(open));
    if Neutral(html) {
      NeutralAfter(html, ClosingMarkup(open));
    }
  }
}
