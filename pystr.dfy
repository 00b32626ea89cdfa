/** The Python string built-ins the tools rely on: `str.isspace`, `strip`,
    `split()`, `sep.join`, `lower`, `upper`, the `in` substring test, the
    `[::-1]` slice and decimal formatting of an `int`.  A Python `str` is a
    sequence of code points, modelled as `seq<char>`. */
module PyStr {

  /** `c.isspace()`: the characters Python treats as whitespace in `strip()`
      and `split()` (bidirectional class WS, B or S, or category Zs). */
  predicate IsSpace(c: char) {
    ('\U{9}' <= c <= '\U{D}') || ('\U{1C}' <= c <= '\U{20}') ||
    c == '\U{85}' || c == '\U{A0}' || c == '\U{1680}' ||
    ('\U{2000}' <= c <= '\U{200A}') || c == '\U{2028}' || c == '\U{2029}' ||
    c == '\U{202F}' || c == '\U{205F}' || c == '\U{3000}'
  }

  predicate NoSpace(s: string) {
    forall i :: 0 <= i < |s| ==> !IsSpace(s[i])
  }

  /** What `split()` can produce: a non-empty run of non-whitespace. */
  predicate IsWord(s: string) {
    s != [] && NoSpace(s)
  }

  // ---------------------------------------------------------------- strip

  /** `s.lstrip()`: drops the longest all-whitespace prefix. */
  function StripLeft(s: string): (r: string)
    ensures |r| <= |s| && r == s[|s| - |r|..]
    ensures forall i :: 0 <= i < |s| - |r| ==> IsSpace(s[i])
    ensures r != [] ==> !IsSpace(r[0])
  {
    if s != [] && IsSpace(s[0]) then StripLeft(s[1..]) else s
  }

  /** `s.rstrip()`: drops the longest all-whitespace suffix. */
  function StripRight(s: string): (r: string)
    ensures |r| <= |s| && r == s[..|r|]
    ensures forall i :: |r| <= i < |s| ==> IsSpace(s[i])
    ensures r != [] ==> !IsSpace(r[|r| - 1])
  {
    if s != [] && IsSpace(s[|s| - 1]) then StripRight(s[..|s| - 1]) else s
  }

  /** `s.strip()`. */
  function Strip(s: string): (r: string)
    ensures |r| <= |s|
    ensures r != [] ==> !IsSpace(r[0]) && !IsSpace(r[|r| - 1])
    ensures r == [] <==> forall i :: 0 <= i < |s| ==> IsSpace(s[i])
    ensures (s == [] || (!IsSpace(s[0]) && !IsSpace(s[|s| - 1]))) ==> r == s
  {
    var t := StripLeft(s);
    assert t != [] ==> t[0] == s[|s| - |t|];
    StripRight(t)
  }

  /** Whitespace in front never changes `lstrip()`. */
  lemma {:induction false} StripLeftPre(pre: string, x: string)
    requires forall k :: 0 <= k < |pre| ==> IsSpace(pre[k])
    ensures StripLeft(pre + x) == StripLeft(x)
  {
    if pre == [] {
      assert pre + x == x;
    } else {
      assert (pre + x)[0] == pre[0] && (pre + x)[1..] == pre[1..] + x;
      assert forall k :: 0 <= k < |pre| - 1 ==> pre[1..][k] == pre[k + 1];
      StripLeftPre(pre[1..], x);
    }
  }

  /** Whitespace behind never changes `rstrip()`. */
  lemma {:induction false} StripRightPost(x: string, post: string)
    requires forall k :: 0 <= k < |post| ==> IsSpace(post[k])
    ensures StripRight(x + post) == StripRight(x)
    decreases |post|
  {
    if post == [] {
      assert x + post == x;
    } else {
      var p := post[..|post| - 1];
      var s := x + post;
      assert s[|s| - 1] == post[|post| - 1] && s[..|s| - 1] == x + p;
      assert forall k :: 0 <= k < |p| ==> p[k] == post[k];
      StripRightPost(x, p);
    }
  }

  /** Once `lstrip()` has reached text, what follows it is kept. */
  lemma {:induction false} StripLeftThen(d: string, post: string)
    requires StripLeft(d) != []
    ensures StripLeft(d + post) == StripLeft(d) + post
  {
    assert (d + post)[0] == d[0];
    if IsSpace(d[0]) {
      assert (d + post)[1..] == d[1..] + post;
      StripLeftThen(d[1..], post);
    }
  }

  /** Whitespace around a string never changes its strip. */
  lemma StripPadded(pre: string, d: string, post: string)
    requires forall k :: 0 <= k < |pre| ==> IsSpace(pre[k])
    requires forall k :: 0 <= k < |post| ==> IsSpace(post[k])
    ensures Strip(pre + d + post) == Strip(d)
  {
    var s := pre + d + post;
    assert s == pre + (d + post);
    StripLeftPre(pre, d + post);
    if StripLeft(d) == [] {
      assert forall k :: 0 <= k < |d| ==> IsSpace(d[k]);
      forall k | 0 <= k < |s| ensures IsSpace(s[k]) {
        if k < |pre| {
          assert s[k] == pre[k];
        } else if k < |pre| + |d| {
          assert s[k] == d[k - |pre|];
        } else {
          assert s[k] == post[k - |pre| - |d|];
        }
      }
    } else {
      StripLeftThen(d, post);
      StripRightPost(StripLeft(d), post);
    }
  }

  /** `strip()` is determined by where the text is: a slice that is empty
      or has non-whitespace ends, with only whitespace around it, is the
      strip of the string. */
  lemma StripUnique(s: string, i: nat, m: nat)
    requires i + m <= |s|
    requires forall k :: 0 <= k < i ==> IsSpace(s[k])
    requires forall k :: i + m <= k < |s| ==> IsSpace(s[k])
    requires m > 0 ==> !IsSpace(s[i]) && !IsSpace(s[i + m - 1])
    ensures Strip(s) == s[i..i + m]
  {
    var pre, mid, post := s[..i], s[i..i + m], s[i + m..];
    assert s == pre + mid + post;
    assert forall k :: 0 <= k < |pre| ==> pre[k] == s[k];
    assert forall k :: 0 <= k < |post| ==> post[k] == s[i + m + k];
    assert mid != [] ==> mid[0] == s[i] && mid[|mid| - 1] == s[i + m - 1];
    StripPadded(pre, mid, post);
  }

  // -------------------------------------------------------- case mapping

  /** One character of `str.lower()`.  ASCII capitals map to small letters,
      and U+212A KELVIN SIGN maps to 'k', the one non-ASCII character whose
      lower-case form is an ASCII letter; every other character is kept. */
  function LowerChar(c: char): char {
    if 'A' <= c <= 'Z' then (c as int + 32) as char
    else if c == '\U{212A}' then 'k'
    else c
  }

  /** One character of `str.upper()` on ASCII small letters. */
  function UpperChar(c: char): char {
    if 'a' <= c <= 'z' then (c as int - 32) as char else c
  }

  /** `s.lower()`, character by character. */
  function Lower(s: string): (r: string)
    ensures |r| == |s|
    ensures forall i :: 0 <= i < |s| ==> r[i] == LowerChar(s[i])
  {
    if s == [] then [] else [LowerChar(s[0])] + Lower(s[1..])
  }

  /** A string with no character that `lower()` changes is its own lower case. */
  lemma LowerFixed(s: string)
    requires forall i :: 0 <= i < |s| ==> LowerChar(s[i]) == s[i]
    ensures Lower(s) == s
  {
  }

  /** Lower-casing twice is lower-casing once. */
  lemma LowerIdempotent(s: string)
    ensures Lower(Lower(s)) == Lower(s)
  {
    var l := Lower(s);
    forall i | 0 <= i < |l| ensures LowerChar(l[i]) == l[i] {
    }
    LowerFixed(l);
  }

  /** `lower()` never turns whitespace into text or text into whitespace. */
  lemma LowerCharSpace(c: char)
    ensures IsSpace(LowerChar(c)) == IsSpace(c)
  {
  }

  /** Lower-casing a stripped string leaves it stripped. */
  lemma LowerStripped(s: string)
    requires s == [] || (!IsSpace(s[0]) && !IsSpace(s[|s| - 1]))
    ensures Strip(Lower(s)) == Lower(s)
  {
    if s != [] {
      LowerCharSpace(s[0]);
      LowerCharSpace(s[|s| - 1]);
    }
  }

  // ------------------------------------------------------------ substring

  predicate StartsWith(s: string, p: string) {
    |p| <= |s| && s[..|p|] == p
  }

  predicate OccursAt(s: string, p: string, i: int) {
    0 <= i <= |s| - |p| && s[i..i + |p|] == p
  }

  /** `p in s` for strings. */
  predicate Contains(s: string, p: string)
    decreases |s|
  {
    StartsWith(s, p) || (s != [] && Contains(s[1..], p))
  }

  lemma {:induction false} OccursContains(s: string, p: string, i: int)
    requires OccursAt(s, p, i)
    ensures Contains(s, p)
    decreases i
  {
    if i > 0 {
      assert s[1..][i - 1..i - 1 + |p|] == s[i..i + |p|];
      OccursContains(s[1..], p, i - 1);
    }
  }

  lemma {:induction false} ContainsOccurs(s: string, p: string) returns (i: int)
    requires Contains(s, p)
    ensures OccursAt(s, p, i)
    decreases |s|
  {
    if StartsWith(s, p) {
      i := 0;
    } else {
      var j := ContainsOccurs(s[1..], p);
      assert s[j + 1..j + 1 + |p|] == s[1..][j..j + |p|];
      i := j + 1;
    }
  }

  /** `p in s` holds exactly when `p` occurs at some position of `s`. */
  lemma ContainsIffOccurs(s: string, p: string)
    ensures Contains(s, p) <==> exists i :: OccursAt(s, p, i)
  {
    if Contains(s, p) {
      var i := ContainsOccurs(s, p);
    }
    forall i | OccursAt(s, p, i) ensures Contains(s, p) {
      OccursContains(s, p, i);
    }
  }

  // ---------------------------------------------------------- split, join

  /** The maximal whitespace-free prefix of `s`. */
  function WordPrefix(s: string): (w: string)
    ensures |w| <= |s| && w == s[..|w|] && NoSpace(w)
    ensures |w| < |s| ==> IsSpace(s[|w|])
  {
    if s == [] || IsSpace(s[0]) then [] else [s[0]] + WordPrefix(s[1..])
  }

  /** `s.split()` with no separator: runs of whitespace separate words,
      and leading or trailing whitespace yields no empty word. */
  function Split(s: string): (r: seq<string>)
    ensures forall i :: 0 <= i < |r| ==> IsWord(r[i])
    decreases |s|
  {
    var t := StripLeft(s);
    if t == [] then []
    else
      var w := WordPrefix(t);
      [w] + Split(t[|w|..])
  }

  /** `sep.join(parts)`. */
  function Join(sep: string, parts: seq<string>): string {
    if parts == [] then ""
    else if |parts| == 1 then parts[0]
    else parts[0] + sep + Join(sep, parts[1..])
  }

  lemma WordPrefixOfWord(w: string, rest: string)
    requires NoSpace(w)
    requires rest == [] || IsSpace(rest[0])
    ensures WordPrefix(w + rest) == w
    decreases |w|
  {
    if w != [] {
      assert (w + rest)[1..] == w[1..] + rest;
      WordPrefixOfWord(w[1..], rest);
    }
  }

  /** A word followed by nothing or by whitespace splits off as one word. */
  lemma SplitWordThen(w: string, rest: string)
    requires IsWord(w)
    requires rest == [] || IsSpace(rest[0])
    ensures Split(w + rest) == [w] + Split(rest)
  {
    var s := w + rest;
    assert StripLeft(s) == s;
    WordPrefixOfWord(w, rest);
    assert s[|w|..] == rest;
    if rest != [] {
      assert Split(rest) == Split(rest[1..]);
    }
  }

  /** Leading whitespace never changes the split. */
  lemma SplitSpaceThen(c: char, rest: string)
    requires IsSpace(c)
    ensures Split([c] + rest) == Split(rest)
  {
    assert ([c] + rest)[1..] == rest;
    assert StripLeft([c] + rest) == StripLeft(rest);
  }

  /** The empty string has no words.  With `SplitWordThen` and
      `SplitSpaceThen` this fixes `split()` on every string. */
  lemma SplitEmpty()
    ensures Split("") == []
  {
  }

  /** Splitting words joined by single spaces gives the words back. */
  lemma {:induction false} SplitJoin(ws: seq<string>)
    requires forall i :: 0 <= i < |ws| ==> IsWord(ws[i])
    ensures Split(Join(" ", ws)) == ws
  {
    if ws == [] {
    } else if |ws| == 1 {
      assert ws[0] + "" == ws[0];
      SplitWordThen(ws[0], "");
    } else {
      var w, tail := ws[0], ws[1..];
      var rest := Join(" ", tail);
      assert Join(" ", ws) == w + (" " + rest);
      assert tail[0] == ws[1];
      assert forall i :: 0 <= i < |tail| ==> IsWord(tail[i]) by {
        forall i | 0 <= i < |tail| ensures IsWord(tail[i]) {
          assert tail[i] == ws[i + 1];
        }
      }
      calc {
        Split(Join(" ", ws));
        Split(w + (" " + rest));
        { SplitWordThen(w, " " + rest); }
        [w] + Split(" " + rest);
        { SplitSpaceThen(' ', rest); }
        [w] + Split(rest);
        { SplitJoin(tail); }
        [w] + tail;
        ws;
      }
    }
  }

  // -------------------------------------------------------------- reverse

  /** `s[::-1]`. */
  function Reverse(s: string): (r: string)
    ensures |r| == |s|
    ensures forall i :: 0 <= i < |s| ==> r[i] == s[|s| - 1 - i]
  {
    if s == [] then [] else Reverse(s[1..]) + [s[0]]
  }

  /** Reversing twice gives the original string back. */
  lemma ReverseReverse(s: string)
    ensures Reverse(Reverse(s)) == s
  {
    var r := Reverse(Reverse(s));
    assert forall i :: 0 <= i < |s| ==> r[i] == s[i];
  }

  // ------------------------------------------------------------- integers

  function Digit(d: nat): char
    requires d < 10
  {
    ('0' as int + d) as char
  }

  /** `str(n)` for a non-negative `int`: decimal digits, no leading zero. */
  function NatToString(n: nat): (r: string)
    ensures r != []
    ensures forall i :: 0 <= i < |r| ==> '0' <= r[i] <= '9'
    ensures |r| > 1 ==> r[0] != '0'
  {
    if n < 10 then [Digit(n)] else NatToString(n / 10) + [Digit(n % 10)]
  }

  /** The number a string of decimal digits denotes. */
  function DecimalValue(s: string): nat
    requires forall i :: 0 <= i < |s| ==> '0' <= s[i] <= '9'
  {
    if s == [] then 0
    else 10 * DecimalValue(s[..|s| - 1]) + (s[|s| - 1] as int - '0' as int)
  }

  /** Formatting is inverted by reading the digits back. */
  lemma {:induction false} NatToStringValue(n: nat)
    ensures DecimalValue(NatToString(n)) == n
  {
    if n >= 10 {
      NatToStringValue(n / 10);
      var r := NatToString(n);
      assert r[..|r| - 1] == NatToString(n / 10);
    }
  }
}
