/**
 * The handful of Python string operations the planner's input decoding relies on:
 * `str.strip()`, `str.lower()`, `str.split()`, `str.split(sep)`, `str.replace`,
 * `str.isdigit()` and `int()` on a digit string.
 */
module Text {

  /** Python's `str.isspace()` for one character: the 29 code points it treats as whitespace. */
  predicate IsSpace(c: char)
  {
    var n := c as int;
    n == 0x20 || 0x09 <= n <= 0x0D || 0x1C <= n <= 0x1F || n == 0x85 || n == 0xA0 ||
    n == 0x1680 || 0x2000 <= n <= 0x200A || n == 0x2028 || n == 0x2029 || n == 0x202F ||
    n == 0x205F || n == 0x3000
  }

  predicate NoSpace(s: string)
  {
    forall i :: 0 <= i < |s| ==> !IsSpace(s[i])
  }

  predicate AllSpace(s: string)
  {
    forall i :: 0 <= i < |s| ==> IsSpace(s[i])
  }

  predicate IsDigit(c: char)
  {
    '0' <= c <= '9'
  }

  /** `str.isdigit()`: non-empty and every character a digit. */
  predicate AllDigits(s: string)
  {
    |s| > 0 && forall i :: 0 <= i < |s| ==> IsDigit(s[i])
  }

  /** `int()` of a string of decimal digits. */
  function DigitsValue(s: string): nat
    requires forall i :: 0 <= i < |s| ==> IsDigit(s[i])
  {
    if s == [] then 0
    else
      assert IsDigit(s[|s| - 1]);
      DigitsValue(s[..|s| - 1]) * 10 + (s[|s| - 1] as int - '0' as int)
  }

  /** The decimal spelling of `n`, without leading zeros; `int()` reads it back as `n`. */
  function Decimal(n: nat): (s: string)
    ensures AllDigits(s)
    ensures DigitsValue(s) == n
  {
    if n < 10 then [('0' as int + n) as char]
    else
      var front := Decimal(n / 10);
      var s := front + [('0' as int + n % 10) as char];
      assert s[..|s| - 1] == front;
      s
  }

  // ---------------------------------------------------------------- strip

  function TrimLeft(s: string): string
  {
    if s != [] && IsSpace(s[0]) then TrimLeft(s[1..]) else s
  }

  function TrimRight(s: string): string
  {
    if s != [] && IsSpace(s[|s| - 1]) then TrimRight(s[..|s| - 1]) else s
  }

  /** `str.strip()`: drop leading and trailing whitespace. */
  function Strip(s: string): string
  {
    TrimRight(TrimLeft(s))
  }

  /** Strip removes exactly the padding: whatever whitespace surrounds a word without
      outer whitespace, stripping gives back that word. */
  lemma StripPadded(pre: string, w: string, post: string)
    requires AllSpace(pre) && AllSpace(post)
    requires w == [] || (!IsSpace(w[0]) && !IsSpace(w[|w| - 1]))
    ensures Strip(pre + w + post) == w
  {
    var s := pre + w + post;
    assert s == pre + (w + post);
    if w == [] {
      assert w + post == post;
      TrimLeftPadded(pre, post);
      assert TrimLeft(s) == [];
    } else {
      assert (w + post)[0] == w[0];
      TrimLeftPadded(pre, w + post);
      assert TrimLeft(s) == w + post;
      TrimRightPadded(w, post);
    }
  }

  lemma {:induction false} TrimLeftPadded(pre: string, rest: string)
    requires AllSpace(pre)
    requires rest == [] || !IsSpace(rest[0]) || AllSpace(rest)
    ensures rest != [] && !IsSpace(rest[0]) ==> TrimLeft(pre + rest) == rest
    ensures AllSpace(rest) ==> TrimLeft(pre + rest) == []
    decreases |pre|
  {
    if pre == [] {
      assert pre + rest == rest;
      if AllSpace(rest) { TrimLeftAllSpace(rest); }
    } else {
      assert (pre + rest)[1..] == pre[1..] + rest;
      TrimLeftPadded(pre[1..], rest);
    }
  }

  lemma {:induction false} TrimLeftAllSpace(s: string)
    requires AllSpace(s)
    ensures TrimLeft(s) == []
    decreases |s|
  {
    if s != [] { TrimLeftAllSpace(s[1..]); }
  }

  lemma {:induction false} TrimRightPadded(w: string, post: string)
    requires AllSpace(post)
    requires w != [] && !IsSpace(w[|w| - 1])
    ensures TrimRight(w + post) == w
    decreases |post|
  {
    if post == [] {
      assert w + post == w;
    } else {
      var s := w + post;
      assert s[..|s| - 1] == w + post[..|post| - 1];
      TrimRightPadded(w, post[..|post| - 1]);
    }
  }

  // ---------------------------------------------------------------- lower, replace

  function LowerChar(c: char): char
  {
    if 'A' <= c <= 'Z' then (c as int - 'A' as int + 'a' as int) as char else c
  }

  /** `str.lower()` on ASCII letters. */
  function Lower(s: string): (r: string)
    ensures |r| == |s|
    ensures forall i :: 0 <= i < |s| ==> r[i] == LowerChar(s[i])
  {
    seq(|s|, i requires 0 <= i < |s| => LowerChar(s[i]))
  }

  /** Lower-casing twice is lower-casing once. */
  lemma LowerIdempotent(s: string)
    ensures Lower(Lower(s)) == Lower(s)
  {
  }

  /** `str.replace(a, b)` for single characters. */
  function Replace(s: string, a: char, b: char): (r: string)
    ensures |r| == |s|
    ensures forall i :: 0 <= i < |s| ==> r[i] == (if s[i] == a then b else s[i])
  {
    seq(|s|, i requires 0 <= i < |s| => if s[i] == a then b else s[i])
  }

  // ---------------------------------------------------------------- str.split()

  /** Length of the run of non-whitespace characters at the start of `s`. */
  function WordLen(s: string): (n: nat)
    ensures n <= |s|
  {
    if s == [] || IsSpace(s[0]) then 0 else 1 + WordLen(s[1..])
  }

  /** `str.split()` with no argument: the maximal runs of non-whitespace characters. */
  function Words(s: string): seq<string>
    decreases |s|
  {
    if s == [] then []
    else if IsSpace(s[0]) then Words(s[1..])
    else
      var n := WordLen(s);
      [s[..n]] + Words(s[n..])
  }

  lemma {:induction false} WordsSkipSpace(sp: string, s: string)
    requires AllSpace(sp)
    ensures Words(sp + s) == Words(s)
    decreases |sp|
  {
    if sp == [] {
      assert sp + s == s;
    } else {
      assert (sp + s)[1..] == sp[1..] + s;
      WordsSkipSpace(sp[1..], s);
    }
  }

  lemma {:induction false} WordLenOfWord(w: string, rest: string)
    requires w != [] && NoSpace(w)
    requires rest == [] || IsSpace(rest[0])
    ensures WordLen(w + rest) == |w|
    decreases |w|
  {
    assert (w + rest)[0] == w[0];
    assert (w + rest)[1..] == w[1..] + rest;
    if |w| == 1 {
      assert w[1..] + rest == rest;
    } else {
      WordLenOfWord(w[1..], rest);
    }
  }

  /** Splitting words joined by single spaces gives the words back. */
  lemma {:induction false} WordsOfJoin(ws: seq<string>)
    requires |ws| >= 1
    requires forall k :: 0 <= k < |ws| ==> ws[k] != [] && NoSpace(ws[k])
    ensures Words(JoinWith(ws, ' ')) == ws
    decreases |ws|
  {
    var w := ws[0];
    if |ws| == 1 {
      WordLenOfWord(w, []);
      assert w + [] == w;
      assert w[|w|..] == [];
    } else {
      var rest := [' '] + JoinWith(ws[1..], ' ');
      assert JoinWith(ws, ' ') == w + rest;
      WordLenOfWord(w, rest);
      assert (w + rest)[..|w|] == w;
      assert (w + rest)[|w|..] == rest;
      WordsSkipSpace([' '], JoinWith(ws[1..], ' '));
      WordsOfJoin(ws[1..]);
    }
  }

  // ---------------------------------------------------------------- str.split(sep)

  /** `str.split(sep)`: the pieces between separators, empty pieces included. */
  function SplitOn(s: string, sep: char): (parts: seq<string>)
    ensures |parts| >= 1
  {
    if s == [] then [[]]
    else
      var rest := SplitOn(s[1..], sep);
      if s[0] == sep then [[]] + rest else [[s[0]] + rest[0]] + rest[1..]
  }

  /** `sep.join(parts)`. */
  function JoinWith(parts: seq<string>, sep: char): string
    requires |parts| >= 1
  {
    if |parts| == 1 then parts[0] else parts[0] + [sep] + JoinWith(parts[1..], sep)
  }

  /** Splitting and re-joining gives the original text back. */
  lemma {:induction false} JoinSplit(s: string, sep: char)
    ensures JoinWith(SplitOn(s, sep), sep) == s
  {
    if s != [] {
      var rest := SplitOn(s[1..], sep);
      JoinSplit(s[1..], sep);
      if s[0] == sep {
        assert SplitOn(s, sep)[1..] == rest;
      } else {
        var parts := SplitOn(s, sep);
        if |rest| == 1 {
          assert parts == [[s[0]] + rest[0]];
        } else {
          assert parts[1..] == rest[1..];
          assert JoinWith(parts, sep) == [s[0]] + rest[0] + [sep] + JoinWith(rest[1..], sep);
        }
      }
    }
  }

  /** Joining pieces that do not contain the separator and splitting again gives the pieces back. */
  lemma {:induction false} SplitJoin(parts: seq<string>, sep: char)
    requires |parts| >= 1
    requires forall k :: 0 <= k < |parts| ==> sep !in parts[k]
    ensures SplitOn(JoinWith(parts, sep), sep) == parts
    decreases |parts|, |parts[0]|
  {
    var p := parts[0];
    if |parts| == 1 {
      SplitNoSep(p, sep);
    } else if p == [] {
      var tail := JoinWith(parts[1..], sep);
      assert JoinWith(parts, sep) == [sep] + tail;
      assert ([sep] + tail)[1..] == tail;
      SplitJoin(parts[1..], sep);
    } else {
      var s := JoinWith(parts, sep);
      var shorter := [p[1..]] + parts[1..];
      assert shorter[1..] == parts[1..];
      assert JoinWith(shorter, sep) == p[1..] + [sep] + JoinWith(parts[1..], sep);
      assert s == [p[0]] + JoinWith(shorter, sep);
      assert s[1..] == JoinWith(shorter, sep);
      assert forall k :: 0 <= k < |shorter| ==> sep !in shorter[k] by {
        forall k | 0 <= k < |shorter| ensures sep !in shorter[k] {
          if k == 0 { assert p == [p[0]] + p[1..]; } else { assert shorter[k] == parts[k]; }
        }
      }
      SplitJoin(shorter, sep);
      assert p == [p[0]] + p[1..];
    }
  }

  lemma {:induction false} SplitNoSep(p: string, sep: char)
    requires sep !in p
    ensures SplitOn(p, sep) == [p]
    decreases |p|
  {
    if p != [] {
      assert sep !in p[1..];
      SplitNoSep(p[1..], sep);
      assert p == [p[0]] + p[1..];
    }
  }
}
