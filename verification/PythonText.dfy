/** The few pieces of Python's text handling the modelled code leans on. */
module PythonText {

  /** White space as `str.strip`, `str.isspace` and the regex class `\s` know it. */
  predicate IsSpace(c: char) {
    var n := c as int;
    || 9 <= n <= 13
    || 28 <= n <= 32
    || n in {0x85, 0xA0, 0x1680, 0x2028, 0x2029, 0x202F, 0x205F, 0x3000}
    || 0x2000 <= n <= 0x200A
  }

  predicate StartsWith(s: string, prefix: string) {
    |prefix| <= |s| && s[..|prefix|] == prefix
  }

  lemma NotStartsWith(s: string, prefix: string, i: nat)
    requires i < |s| && i < |prefix| && s[i] != prefix[i]
    ensures !StartsWith(s, prefix)
  {}

  predicate OccursAt(s: string, part: string, i: nat) {
    i + |part| <= |s| && s[i..i + |part|] == part
  }

  predicate Contains(s: string, part: string) {
    exists i :: 0 <= i <= |s| && OccursAt(s, part, i)
  }

  /** The slice `s[:n]`, where a negative `n` counts from the end. */
  function TakeUpTo(s: string, n: int): (r: string)
    ensures r <= s
    ensures 0 <= n ==> |r| == if n < |s| then n else |s|
  {
    if n < 0 then s[..if |s| + n < 0 then 0 else |s| + n]
    else s[..if n < |s| then n else |s|]
  }

  function LStrip(s: string): (r: string)
    ensures |r| <= |s|
    ensures r != "" ==> !IsSpace(r[0])
    ensures r == "" <==> forall c :: c in s ==> IsSpace(c)
  {
    if s != "" && IsSpace(s[0]) then
      assert forall c :: c in s <==> c == s[0] || c in s[1..];
      LStrip(s[1..])
    else s
  }

  function RStrip(s: string): (r: string)
    ensures |r| <= |s|
    ensures r != "" ==> !IsSpace(r[|r| - 1])
    ensures r <= s
  {
    if s != "" && IsSpace(s[|s| - 1]) then RStrip(s[..|s| - 1]) else s
  }

  function Strip(s: string): string {
    RStrip(LStrip(s))
  }

  /** Text framed by non-space characters is its own `strip`. */
  lemma StripFramed(s: string)
    requires s != "" && !IsSpace(s[0]) && !IsSpace(s[|s| - 1])
    ensures Strip(s) == s
  {}
}
