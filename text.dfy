/** The two string operations the schedule handlers use: `str.lower()`
    (restricted to ASCII letters) and the substring test `p in s`. */
module Text {

  function LowerChar(c: char): char {
    if 'A' <= c <= 'Z' then (c as int + 32) as char else c
  }

  /** `s.lower()` on ASCII letters; every other character is kept. */
  function Lower(s: string): string {
    seq(|s|, i requires 0 <= i < |s| => LowerChar(s[i]))
  }

  predicate IsPrefix(p: string, s: string) {
    |p| <= |s| && s[..|p|] == p
  }

  /** `p in s` for strings: `p` occurs in `s` at some offset. */
  predicate IsSubstring(p: string, s: string)
    decreases |s|
  {
    IsPrefix(p, s) || (|s| > 0 && IsSubstring(p, s[1..]))
  }

  /** Lowering twice is lowering once, so a keyword that is already lowered
      searches the same as its raw form. */
  lemma LowerIdempotent(s: string)
    ensures Lower(Lower(s)) == Lower(s)
  {
    assert forall i :: 0 <= i < |s| ==> LowerChar(LowerChar(s[i])) == LowerChar(s[i]);
  }

  /** The occurrence found by `IsSubstring` is a real slice of `s`, and any
      slice of `s` is found. */
  lemma {:induction false} SubstringAt(p: string, s: string)
    ensures IsSubstring(p, s) <==> exists i :: 0 <= i <= |s| - |p| && IsPrefix(p, s[i..])
  {
    if IsSubstring(p, s) {
      if !IsPrefix(p, s) {
        SubstringAt(p, s[1..]);
        var i :| 0 <= i <= |s| - 1 - |p| && IsPrefix(p, s[1..][i..]);
        assert s[1..][i..] == s[i + 1..];
      } else {
        assert s[0..] == s;
      }
    }
    if exists i :: 0 <= i <= |s| - |p| && IsPrefix(p, s[i..]) {
      var i :| 0 <= i <= |s| - |p| && IsPrefix(p, s[i..]);
      if i > 0 {
        assert s[1..][i - 1..] == s[i..];
        SubstringAt(p, s[1..]);
      } else {
        assert s[0..] == s;
      }
    }
  }

  /** The empty keyword occurs in every string. */
  lemma EmptyIsSubstring(s: string)
    ensures IsSubstring("", s)
  {
  }

  /** The delete handler's confirmation test `answer.lower() == "y"`
      accepts exactly "y" and "Y": no padding, no other word. */
  lemma ConfirmAccepts(answer: string)
    ensures Lower(answer) == "y" <==> answer == "y" || answer == "Y"
  {
    if Lower(answer) == "y" {
      assert |answer| == 1;
      assert Lower(answer)[0] == LowerChar(answer[0]) == 'y';
      assert answer == [answer[0]];
    }
    if answer == "Y" {
      assert Lower(answer)[0] == 'y';
    }
    if answer == "y" {
      assert Lower(answer)[0] == 'y';
    }
  }
}
