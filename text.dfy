/** The string operations the chatbots apply to user input: Python's
    `str.strip()`, `str.lower()` and `str.join`. */
module Text {

  /** `c.isspace()`: the characters `str.strip()` removes when called
      without arguments. */
  predicate IsSpace(c: char) {
    || '\t' <= c <= '\r'
    || '\U{001C}' <= c <= ' '
    || c == '\U{0085}' || c == '\U{00A0}' || c == '\U{1680}'
    || '\U{2000}' <= c <= '\U{200A}'
    || c == '\U{2028}' || c == '\U{2029}' || c == '\U{202F}' || c == '\U{205F}' || c == '\U{3000}'
  }

  /** Every character of `s` is white space (true of the empty string). */
  predicate IsBlank(s: string) {
    forall i :: 0 <= i < |s| ==> IsSpace(s[i])
  }

  /** `s.lstrip()`: drops the leading white space and nothing else. */
  function StripStart(s: string): (r: string)
    ensures |r| <= |s| && r == s[|s| - |r|..]
    ensures IsBlank(s[..|s| - |r|])
    ensures r != [] ==> !IsSpace(r[0])
  {
    if s != [] && IsSpace(s[0]) then
      var r := StripStart(s[1..]);
      assert [s[0]] + s[1..][..|s| - 1 - |r|] == s[..|s| - |r|];
      BlankAppend([s[0]], s[1..][..|s| - 1 - |r|]);
      r
    else s
  }

  /** `s.rstrip()`: drops the trailing white space and nothing else. */
  function StripEnd(s: string): (r: string)
    ensures |r| <= |s| && r == s[..|r|]
    ensures IsBlank(s[|r|..])
    ensures r != [] ==> !IsSpace(r[|r| - 1])
  {
    if s != [] && IsSpace(s[|s| - 1]) then
      var r := StripEnd(s[..|s| - 1]);
      assert s[..|s| - 1][|r|..] + [s[|s| - 1]] == s[|r|..];
      BlankAppend(s[..|s| - 1][|r|..], [s[|s| - 1]]);
      r
    else s
  }

  /** `s.strip()`: the part of `s` between its leading and its trailing
      white space; empty exactly when `s` is blank. */
  function Strip(s: string): (r: string)
    ensures r == "" <==> IsBlank(s)
    ensures r != "" ==> !IsSpace(r[0]) && !IsSpace(r[|r| - 1])
  {
    var t := StripStart(s);
    var r := StripEnd(t);
    BlankAppend(s[..|s| - |t|], t);
    BlankAppend(r, t[|r|..]);
    r
  }

  /** A concatenation is blank exactly when both of its parts are. */
  lemma BlankAppend(a: string, b: string)
    ensures IsBlank(a + b) <==> IsBlank(a) && IsBlank(b)
  {
    if IsBlank(a) && IsBlank(b) {
      forall i | 0 <= i < |a + b|
        ensures IsSpace((a + b)[i])
      {
        if i >= |a| {
          assert (a + b)[i] == b[i - |a|];
        }
      }
    }
    if IsBlank(a + b) {
      forall i | 0 <= i < |a|
        ensures IsSpace(a[i])
      {
        assert (a + b)[i] == a[i];
      }
      forall i | 0 <= i < |b|
        ensures IsSpace(b[i])
      {
        assert (a + b)[|a| + i] == b[i];
      }
    }
  }

  /** `strip()` is the input with its blank ends removed: `s` is a blank
      prefix, then `Strip(s)`, then a blank suffix. */
  lemma StripIsInfix(s: string) returns (a: nat)
    ensures a + |Strip(s)| <= |s| && Strip(s) == s[a..a + |Strip(s)|]
    ensures IsBlank(s[..a]) && IsBlank(s[a + |Strip(s)|..])
  {
    a := |s| - |StripStart(s)|;
    assert a + |Strip(s)| <= |s| && Strip(s) == s[a..a + |Strip(s)|]
        && IsBlank(s[..a]) && IsBlank(s[a + |Strip(s)|..]) by {
      assert Strip(s) == StripEnd(StripStart(s));
      InfixOfSuffix(s, a, StripStart(s), Strip(s));
    }
  }

  /** A blank-ended prefix `r` of the suffix `t` of `s` that starts at `a`,
      behind a blank front, sits in `s` between a blank prefix and a blank
      suffix. */
  lemma InfixOfSuffix(s: string, a: nat, t: string, r: string)
    requires a <= |s| && t == s[a..] && IsBlank(s[..a])
    requires |r| <= |t| && r == t[..|r|] && IsBlank(t[|r|..])
    ensures a + |r| <= |s| && r == s[a..a + |r|]
    ensures IsBlank(s[..a]) && IsBlank(s[a + |r|..])
  {
    assert t[|r|..] == s[a + |r|..];
  }

  /** Leading white space before `s` is dropped by `lstrip`. */
  lemma {:induction false} StripStartSkipsBlank(pre: string, s: string)
    requires IsBlank(pre)
    ensures StripStart(pre + s) == StripStart(s)
  {
    if pre == [] {
      assert pre + s == s;
    } else {
      assert (pre + s)[1..] == pre[1..] + s;
      StripStartSkipsBlank(pre[1..], s);
    }
  }

  /** Trailing white space after `s` is dropped by `rstrip`. */
  lemma {:induction false} StripEndSkipsBlank(s: string, post: string)
    requires IsBlank(post)
    ensures StripEnd(s + post) == StripEnd(s)
  {
    if post == [] {
      assert s + post == s;
    } else {
      assert (s + post)[..|s + post| - 1] == s + post[..|post| - 1];
      StripEndSkipsBlank(s, post[..|post| - 1]);
    }
  }

  /** `lstrip` of a string with a non-space character stops inside it. */
  lemma {:induction false} StripStartOfAppend(s: string, post: string)
    requires !IsBlank(s)
    ensures StripStart(s + post) == StripStart(s) + post
  {
    if IsSpace(s[0]) {
      assert (s + post)[1..] == s[1..] + post;
      StripStartOfAppend(s[1..], post);
    }
  }

  /** Stripping a string that is surrounded by white space gives the same as
      stripping the string alone: extra padding is never seen. */
  lemma StripIgnoresPadding(pre: string, s: string, post: string)
    requires IsBlank(pre) && IsBlank(post)
    ensures Strip(pre + s + post) == Strip(s)
  {
    assert pre + s + post == pre + (s + post);
    StripStartSkipsBlank(pre, s + post);
    if IsBlank(s) {
      assert IsBlank(s + post);
    } else {
      StripStartOfAppend(s, post);
      StripEndSkipsBlank(StripStart(s), post);
    }
  }

  /** Stripping twice is stripping once. */
  lemma StripIdempotent(s: string)
    ensures Strip(Strip(s)) == Strip(s)
  {
    var r := Strip(s);
    if r != "" {
      assert StripStart(r) == r;
      assert StripEnd(r) == r;
    }
  }

  /** `c.lower()` for ASCII letters. */
  function LowerChar(c: char): char {
    if 'A' <= c <= 'Z' then (c as int - 'A' as int + 'a' as int) as char else c
  }

  /** `s.lower()`: every ASCII upper-case letter replaced by its lower-case
      letter, all other characters kept. */
  function Lower(s: string): (r: string)
    ensures |r| == |s|
    ensures forall i :: 0 <= i < |s| ==> r[i] == LowerChar(s[i])
  {
    seq(|s|, i requires 0 <= i < |s| => LowerChar(s[i]))
  }

  /** `sep.join(parts)` */
  function Join(sep: string, parts: seq<string>): string {
    if parts == [] then ""
    else if |parts| == 1 then parts[0]
    else Join(sep, parts[..|parts| - 1]) + sep + parts[|parts| - 1]
  }
}
