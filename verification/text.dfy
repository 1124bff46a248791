/** Python's `str.strip()` with no argument, which the copy and save handlers
    apply to the text read back from the output box. */
module Text {

  /** The characters Python's `str.isspace` accepts. */
  predicate IsSpace(c: char) {
    || '\t' <= c <= '\r'
    || '\U{1C}' <= c <= '\U{1F}'
    || c == ' '
    || c == '\U{85}'
    || c == '\U{A0}'
    || c == '\U{1680}'
    || '\U{2000}' <= c <= '\U{200A}'
    || c == '\U{2028}'
    || c == '\U{2029}'
    || c == '\U{202F}'
    || c == '\U{205F}'
    || c == '\U{3000}'
  }

  /** True when `s` has at least one character that is not whitespace. */
  predicate HasNonSpace(s: string) {
    exists i :: 0 <= i < |s| && !IsSpace(s[i])
  }

  /** `s` without its leading whitespace: a suffix of `s` that is empty or
      starts with a non-whitespace character, and everything cut is whitespace. */
  function StripStart(s: string): (r: string)
    ensures |r| <= |s| && r == s[|s| - |r|..]
    ensures forall i :: 0 <= i < |s| - |r| ==> IsSpace(s[i])
    ensures |r| > 0 ==> !IsSpace(r[0])
    decreases |s|
  {
    if |s| > 0 && IsSpace(s[0]) then StripStart(s[1..]) else s
  }

  /** `s` without its trailing whitespace: a prefix of `s` that is empty or
      ends with a non-whitespace character, and everything cut is whitespace. */
  function StripEnd(s: string): (r: string)
    ensures |r| <= |s| && r == s[..|r|]
    ensures forall i :: |r| <= i < |s| ==> IsSpace(s[i])
    ensures |r| > 0 ==> !IsSpace(r[|r| - 1])
    decreases |s|
  {
    if |s| > 0 && IsSpace(s[|s| - 1]) then StripEnd(s[..|s| - 1]) else s
  }

  /** A non-whitespace character survives stripping the front, so something
      is left for stripping the back to keep. */
  lemma StripKeepsNonSpace(s: string, i: int)
    requires 0 <= i < |s| && !IsSpace(s[i])
    ensures StripEnd(StripStart(s)) != []
  {
    var t := StripStart(s);
    var k := |s| - |t|;
    assert s[k..] == t;
    assert i >= k;
    assert t[i - k] == s[i];
  }

  /** When stripping leaves nothing, every character was whitespace: stripping
      the back cannot remove a non-whitespace first character, so stripping
      the front already removed everything. */
  lemma StripEmptyAllSpace(s: string)
    requires StripEnd(StripStart(s)) == []
    ensures !HasNonSpace(s)
  {
    assert StripStart(s) == [];
  }

  /** Stripping both ends leaves nothing exactly when there is no
      non-whitespace character to keep. */
  lemma StripBothEmpty(s: string)
    ensures StripEnd(StripStart(s)) == [] <==> !HasNonSpace(s)
  {
    if HasNonSpace(s) {
      var i :| 0 <= i < |s| && !IsSpace(s[i]);
      StripKeepsNonSpace(s, i);
    }
    if StripEnd(StripStart(s)) == [] {
      StripEmptyAllSpace(s);
    }
  }

  /** Number of leading whitespace characters of `s`. */
  function Lead(s: string): (k: nat)
    ensures k <= |s|
    ensures forall i :: 0 <= i < k ==> IsSpace(s[i])
    ensures k < |s| ==> !IsSpace(s[k])
  {
    |s| - |StripStart(s)|
  }

  /** Stripping both ends keeps the part of `s` that starts after its leading
      whitespace. */
  lemma StripBothSlice(s: string)
    ensures Lead(s) + |StripEnd(StripStart(s))| <= |s|
    ensures forall j :: 0 <= j < |StripEnd(StripStart(s))| ==> StripEnd(StripStart(s))[j] == s[Lead(s) + j]
  {
    var t := StripStart(s);
    var k := Lead(s);
    assert t == s[k..];
    assert StripEnd(t) == t[..|StripEnd(t)|];
  }

  /** Everything after the part that stripping both ends keeps is whitespace. */
  lemma StripBothTrailing(s: string)
    ensures Lead(s) + |StripEnd(StripStart(s))| <= |s|
    ensures forall i :: Lead(s) + |StripEnd(StripStart(s))| <= i < |s| ==> IsSpace(s[i])
  {
    var t := StripStart(s);
    var n := |StripEnd(t)|;
    var k := Lead(s);
    assert t == s[k..];
    forall i | k + n <= i < |s|
      ensures IsSpace(s[i])
    {
      assert s[i] == t[i - k];
    }
  }

  /** `s` without leading and trailing whitespace: the slice of `s` between
      them. The result is empty exactly when `s` is all whitespace; otherwise
      it starts and ends with a non-whitespace character. */
  lemma StripSpec(s: string)
    ensures Lead(s) + |StripEnd(StripStart(s))| <= |s|
    ensures forall j :: 0 <= j < |StripEnd(StripStart(s))| ==> StripEnd(StripStart(s))[j] == s[Lead(s) + j]
    ensures forall i :: 0 <= i < Lead(s) ==> IsSpace(s[i])
    ensures forall i :: Lead(s) + |StripEnd(StripStart(s))| <= i < |s| ==> IsSpace(s[i])
    ensures StripEnd(StripStart(s)) == [] <==> !HasNonSpace(s)
  {
    StripBothEmpty(s);
    StripBothSlice(s);
    StripBothTrailing(s);
  }

  function Strip(s: string): (r: string)
    ensures Lead(s) + |r| <= |s|
    ensures forall j :: 0 <= j < |r| ==> r[j] == s[Lead(s) + j]
    ensures forall i :: 0 <= i < Lead(s) ==> IsSpace(s[i])
    ensures forall i :: Lead(s) + |r| <= i < |s| ==> IsSpace(s[i])
    ensures r == [] <==> !HasNonSpace(s)
    ensures |r| > 0 ==> !IsSpace(r[0]) && !IsSpace(r[|r| - 1])
  {
    StripSpec(s);
    StripEnd(StripStart(s))
  }

  /** A string with no whitespace, followed by a newline, strips back to itself. */
  lemma StripTrailingNewline(s: string)
    requires |s| > 0
    requires forall i :: 0 <= i < |s| ==> !IsSpace(s[i])
    ensures Strip(s + "\n") == s
  {
    var t := s + "\n";
    assert StripStart(t) == t;
    assert t[..|t| - 1] == s;
    assert StripEnd(s) == s;
  }
}
