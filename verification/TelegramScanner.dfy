/** `_find_safe_cut_point`: where a message may be cut without splitting a tag or an entity. */
module TelegramScanner {

  /** A `<` at `i` that no later `>` closes. */
  ghost predicate TagOpensAt(s: string, i: nat)
    requires i < |s|
  {
    s[i] == '<' && forall j :: i < j < |s| ==> s[j] != '>'
  }

  /** `s` ends inside `<...`. */
  ghost predicate InTag(s: string) {
    exists i :: 0 <= i < |s| && TagOpensAt(s, i)
  }

  /** A `&` at `i`, itself outside any tag, that no later `;` closes. */
  ghost predicate EntityOpensAt(s: string, i: nat)
    requires i < |s|
  {
    s[i] == '&' && !InTag(s[..i]) && forall j :: i < j < |s| ==> s[j] != ';'
  }

  /** `s` ends inside `&...`. */
  ghost predicate InEntity(s: string) {
    exists i :: 0 <= i < |s| && EntityOpensAt(s, i)
  }

  /** Text after which a cut splits nothing. */
  ghost predicate Neutral(s: string) {
    !InTag(s) && !InEntity(s)
  }

  lemma InTagStep(s: string, c: char)
    ensures InTag(s + [c]) <==> c == '<' || (InTag(s) && c != '>')
  {
    var t := s + [c];
    if c == '<' {
      assert TagOpensAt(t, |s|);
    } else if InTag(s) && c != '>' {
      var i :| 0 <= i < |s| && TagOpensAt(s, i);
      assert TagOpensAt(t, i);
    } else if InTag(t) {
      var i :| 0 <= i < |t| && TagOpensAt(t, i);
      assert i < |s| && t[|s|] == c;
      assert TagOpensAt(s, i) by {
        assert forall j :: i < j < |s| ==> s[j] == t[j];
      }
    }
  }

  lemma InEntityStep(s: string, c: char)
    ensures InEntity(s + [c]) <==> (c == '&' && !InTag(s)) || (InEntity(s) && c != ';')
  {
    var t := s + [c];
    assert t[..|s|] == s;
    assert forall i :: 0 <= i < |s| ==> t[..i] == s[..i] && t[i] == s[i];
    if c == '&' && !InTag(s) {
      assert EntityOpensAt(t, |s|);
    } else if InEntity(s) && c != ';' {
      var i :| 0 <= i < |s| && EntityOpensAt(s, i);
      assert EntityOpensAt(t, i);
    } else if InEntity(t) {
      var i :| 0 <= i < |t| && EntityOpensAt(t, i);
      assert i < |s| && t[|s|] == c;
      assert EntityOpensAt(s, i);
    }
  }

  /** After text that leaves no tag open, what follows decides alone. */
  lemma InTagAfter(a: string, b: string)
    requires !InTag(a)
    ensures InTag(a + b) <==> InTag(b)
  {
    var t := a + b;
    if InTag(b) {
      var i :| 0 <= i < |b| && TagOpensAt(b, i);
      assert TagOpensAt(t, |a| + i) by {
        assert forall j :: |a| + i < j < |t| ==> t[j] == b[j - |a|];
      }
    }
    if InTag(t) {
      var i :| 0 <= i < |t| && TagOpensAt(t, i);
      if i < |a| {
        assert forall j :: i < j < |a| ==> t[j] == a[j];
        assert TagOpensAt(a, i);
      }
      assert forall j :: 0 <= j < |b| ==> b[j] == t[|a| + j];
      assert TagOpensAt(b, i - |a|);
    }
  }

  /** Neutral text in front changes nothing about where the scanner ends. */
  lemma NeutralAfter(a: string, b: string)
    requires Neutral(a)
    ensures Neutral(a + b) <==> Neutral(b)
  {
    InTagAfter(a, b);
    var t := a + b;
    if InEntity(b) {
      var i :| 0 <= i < |b| && EntityOpensAt(b, i);
      InTagAfter(a, b[..i]);
      assert t[..|a| + i] == a + b[..i];
      assert forall j :: |a| <= j < |t| ==> t[j] == b[j - |a|];
      assert EntityOpensAt(t, |a| + i);
    }
    if InEntity(t) {
      var i :| 0 <= i < |t| && EntityOpensAt(t, i);
      if i < |a| {
        assert t[..i] == a[..i];
        assert forall j :: i <= j < |a| ==> t[j] == a[j];
        assert EntityOpensAt(a, i);
      }
      InTagAfter(a, b[..i - |a|]);
      assert t[..i] == a + b[..i - |a|];
      assert forall j :: 0 <= j < |b| ==> b[j] == t[|a| + j];
      assert EntityOpensAt(b, i - |a|);
    }
  }

  /** A tail of text with no open tag has no open tag. */
  lemma InTagTail(s: string, k: nat)
    requires k <= |s| && !InTag(s)
    ensures !InTag(s[k..])
  {
    if InTag(s[k..]) {
      var i :| 0 <= i < |s| - k && TagOpensAt(s[k..], i);
      assert TagOpensAt(s, k + i) by {
        assert forall j :: k + i <= j < |s| ==> s[j] == s[k..][j - k];
      }
    }
  }

  /** The largest `p` in `1..n` whose prefix is neutral, or 0. */
  ghost function LastNeutral(text: string, n: nat): (p: nat)
    requires n <= |text|
    ensures p <= n
    ensures 0 < p ==> Neutral(text[..p])
    ensures forall q :: p < q <= n ==> !Neutral(text[..q])
  {
    if n == 0 then 0 else if Neutral(text[..n]) then n else LastNeutral(text, n - 1)
  }

  /** How far into `text` a scan up to `target` reaches. */
  function Reach(text: string, target: nat): nat {
    if target < |text| then target else |text|
  }

  ghost predicate HasNeutralPrefix(text: string, target: nat) {
    exists p :: 1 <= p <= Reach(text, target) && Neutral(text[..p])
  }

  ghost function SafeCut(text: string, target: nat): nat {
    var p := LastNeutral(text, Reach(text, target));
    if p == 0 then target else p
  }

  /** The scan returns the last neutral position, or `target` when there is none. */
  method FindSafeCutPoint(text: string, target: nat) returns (cut: nat)
    ensures cut == SafeCut(text, target)
  {
    var inTag, inEntity, safeCut := false, false, 0;
    var n := Reach(text, target);
    for i := 0 to n
      invariant inTag == InTag(text[..i]) && inEntity == InEntity(text[..i])
      invariant safeCut == LastNeutral(text, i)
    {
      var ch := text[i];
      assert text[..i + 1] == text[..i] + [ch];
      InTagStep(text[..i], ch);
      InEntityStep(text[..i], ch);
      if ch == '<' {
        inTag := true;
      } else if ch == '>' && inTag {
        inTag := false;
      } else if ch == '&' && !inTag {
        inEntity := true;
      } else if ch == ';' && inEntity {
        inEntity := false;
      }
      if !inTag && !inEntity {
        safeCut := i + 1;
      }
    }
    cut := if safeCut == 0 then target else safeCut;
  }

  /** The cut is the largest neutral position in reach whenever there is one. */
  lemma SafeCutIsMaximal(text: string, target: nat, p: nat)
    requires 1 <= p <= Reach(text, target) && Neutral(text[..p])
    ensures p <= SafeCut(text, target) <= Reach(text, target)
    ensures Neutral(text[..SafeCut(text, target)])
  {}

  /** The cut never lands inside a tag or an entity, except when no neutral prefix is in reach. */
  lemma SafeCutIsSafeExactlyWhen(text: string, target: nat)
    ensures SafeCut(text, target) <= target
    ensures Neutral(text[..Reach(text, SafeCut(text, target))]) <==>
            target == 0 || |text| == 0 || HasNeutralPrefix(text, target)
    ensures !HasNeutralPrefix(text, target) ==> SafeCut(text, target) == target
  {}
}
