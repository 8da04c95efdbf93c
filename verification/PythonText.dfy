/** The string operations of the original program that several modules share. */
module PythonText {

  /** `str.isspace` for one character. */
  predicate IsSpace(c: char) {
    var n := c as int;
    || 0x09 <= n <= 0x0d || 0x1c <= n <= 0x20 || n == 0x85 || n == 0xa0 || n == 0x1680
    || 0x2000 <= n <= 0x200a || n == 0x2028 || n == 0x2029 || n == 0x202f || n == 0x205f || n == 0x3000
  }

  /** `str.strip()`. */
  function Strip(s: string): string {
    if s == "" then s
    else if IsSpace(s[0]) then Strip(s[1..])
    else if IsSpace(s[|s| - 1]) then Strip(s[..|s| - 1])
    else s
  }

  ghost predicate AllSpace(s: string) {
    forall i :: 0 <= i < |s| ==> IsSpace(s[i])
  }

  /** Nothing to strip at either end. */
  predicate IsTrimmed(s: string) {
    s != "" ==> !IsSpace(s[0]) && !IsSpace(s[|s| - 1])
  }

  /** Stripping removes whitespace at the two ends and nothing else. */
  lemma {:induction false} StripMeaning(s: string) returns (left: string, right: string)
    ensures s == left + Strip(s) + right && AllSpace(left) && AllSpace(right)
    ensures IsTrimmed(Strip(s))
  {
    left, right := "", "";
    if s == "" {
    } else if IsSpace(s[0]) {
      left, right := StripMeaning(s[1..]);
      PadLeft(s, left, Strip(s), right);
      left := [s[0]] + left;
    } else if IsSpace(s[|s| - 1]) {
      left, right := StripMeaning(s[..|s| - 1]);
      PadRight(s, left, Strip(s), right);
      right := right + [s[|s| - 1]];
    }
  }

  lemma PadLeft(s: string, left: string, core: string, right: string)
    requires s != "" && s[1..] == left + core + right
    ensures s == [s[0]] + left + core + right
  {
  }

  lemma PadRight(s: string, left: string, core: string, right: string)
    requires s != "" && s[..|s| - 1] == left + core + right
    ensures s == left + core + (right + [s[|s| - 1]])
  {
  }

  /** Whitespace around a trimmed text strips off. */
  lemma {:induction false} StripPadded(left: string, core: string, right: string)
    requires AllSpace(left) && AllSpace(right) && IsTrimmed(core)
    ensures Strip(left + core + right) == core
    decreases |left| + |right|
  {
    var s := left + core + right;
    if left != "" {
      assert s[1..] == left[1..] + core + right;
      StripPadded(left[1..], core, right);
    } else if right != "" {
      var shorter := right[..|right| - 1];
      assert s[..|s| - 1] == left + core + shorter;
      StripPadded(left, core, shorter);
      if core == "" {
        StripSpaces(s);
      } else {
        assert s[0] == core[0];
      }
    } else {
      assert s == core;
    }
  }

  lemma {:induction false} StripSpaces(s: string)
    requires AllSpace(s)
    ensures Strip(s) == ""
  {
    if s == "" {
    } else {
      StripSpaces(s[1..]);
    }
  }

  function LowerChar(c: char): char {
    if 'A' <= c <= 'Z' then (c as int + 32) as char else c
  }

  /** `str.lower()` on ASCII text. */
  function Lower(s: string): string {
    seq(|s|, i requires 0 <= i < |s| => LowerChar(s[i]))
  }

  /** Only the capitals change, each to its small letter. */
  lemma LowerMeaning(s: string)
    ensures |Lower(s)| == |s|
    ensures forall i :: 0 <= i < |s| ==>
              if 'A' <= s[i] <= 'Z' then Lower(s)[i] as int - 'a' as int == s[i] as int - 'A' as int else Lower(s)[i] == s[i]
  {
  }

  lemma LowerLower(s: string)
    ensures Lower(Lower(s)) == Lower(s)
  {
    assert forall i :: 0 <= i < |s| ==> LowerChar(LowerChar(s[i])) == LowerChar(s[i]);
  }

  lemma LowerIsIdentity(s: string)
    requires forall i :: 0 <= i < |s| ==> !('A' <= s[i] <= 'Z')
    ensures Lower(s) == s
  {
  }
}
