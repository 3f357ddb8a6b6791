/**
 * Decoding of the planner's text inputs: the public-holiday prompt, the staff names,
 * and the "On Leave/Course" field, which holds either the sentinel `frozen` or the
 * days of the month a person cannot do duty.
 */
module Inputs {
  import opened Text

  /** One row of the staff sheet. `score` is the "Current Score" already scaled by 1000. */
  datatype Person = Person(name: string, leave: string, score: int)

  /** The key the planner compares names by: stripped and lower-cased. */
  function Key(name: string): string
  {
    Lower(Strip(name))
  }

  /** The leave field marks a frozen person when, stripped and lower-cased, it reads `frozen`. */
  predicate IsFrozenText(leave: string)
  {
    Lower(Strip(leave)) == "frozen"
  }

  /** The set of frozen name keys; every row whose name has one of these keys is frozen. */
  function FrozenKeys(staff: seq<Person>): set<string>
  {
    set j | 0 <= j < |staff| && IsFrozenText(staff[j].leave) :: Key(staff[j].name)
  }

  predicate IsFrozen(staff: seq<Person>, j: nat)
    requires j < |staff|
  {
    Key(staff[j].name) in FrozenKeys(staff)
  }

  /** Lower-casing the frozen keys again, as the gap constraints do before comparing, leaves
      the set unchanged, so a row is skipped there exactly when it is frozen. */
  lemma LoweredFrozenKeys(staff: seq<Person>)
    ensures (set k | k in FrozenKeys(staff) :: Lower(k)) == FrozenKeys(staff)
    ensures forall j :: 0 <= j < |staff| ==>
      (Key(staff[j].name) in (set k | k in FrozenKeys(staff) :: Lower(k)) <==> IsFrozen(staff, j))
  {
    var lowered := set k | k in FrozenKeys(staff) :: Lower(k);
    forall k | k in FrozenKeys(staff) ensures Lower(k) == k {
      var j :| 0 <= j < |staff| && IsFrozenText(staff[j].leave) && k == Key(staff[j].name);
      LowerIdempotent(Strip(staff[j].name));
    }
    assert lowered == FrozenKeys(staff);
  }

  /** There are never more frozen keys than rows, so the count of non-frozen rows used as a
      divisor is never negative. */
  lemma {:induction false} FrozenKeysBound(staff: seq<Person>)
    ensures |FrozenKeys(staff)| <= |staff|
    decreases |staff|
  {
    if staff != [] {
      var init := staff[..|staff| - 1];
      var last := staff[|staff| - 1];
      FrozenKeysBound(init);
      assert FrozenKeys(staff) <= FrozenKeys(init) + {Key(last.name)} by {
        forall k | k in FrozenKeys(staff) ensures k in FrozenKeys(init) + {Key(last.name)} {
          var j :| 0 <= j < |staff| && IsFrozenText(staff[j].leave) && Key(staff[j].name) == k;
          if j < |staff| - 1 {
            assert staff[j] == init[j];
          }
        }
      }
      CardSubset(FrozenKeys(staff), FrozenKeys(init) + {Key(last.name)});
    }
  }

  lemma CardSubset<T>(a: set<T>, b: set<T>)
    requires a <= b
    ensures |a| <= |b|
  {
    assert b == a + (b - a);
  }

  /** The numbers spelled by the all-digit tokens of a list; other tokens are skipped. */
  function DigitTokenValues(tokens: seq<string>): set<nat>
  {
    set tok | tok in tokens && AllDigits(tok) :: DigitsValue(tok)
  }

  function StripEach(pieces: seq<string>): (r: seq<string>)
    ensures |r| == |pieces|
    ensures forall i :: 0 <= i < |pieces| ==> r[i] == Strip(pieces[i])
  {
    seq(|pieces|, i requires 0 <= i < |pieces| => Strip(pieces[i]))
  }

  /** The public-holiday prompt: the stripped text split on `/`, keeping the pieces that are
      digits once stripped. An empty answer gives no holidays. */
  function HolidayDays(text: string): set<nat>
  {
    var t := Strip(text);
    if t == [] then {} else DigitTokenValues(StripEach(SplitOn(t, '/')))
  }

  /** The leave field of a non-frozen person: stripped and lower-cased, commas turned into
      spaces, split on whitespace, and every all-digit token read as a day of the month.
      (The source strips each token again; a token of `str.split()` has no whitespace to strip.) */
  function BlockedDays(leave: string): set<nat>
  {
    var t := Lower(Strip(leave));
    if t == [] then {} else DigitTokenValues(Words(Replace(t, ',', ' ')))
  }

  /** The decimal spellings of a list of day numbers. */
  function Decimals(ds: seq<nat>): (r: seq<string>)
    ensures |r| == |ds|
    ensures forall i :: 0 <= i < |ds| ==> r[i] == Decimal(ds[i])
  {
    seq(|ds|, i requires 0 <= i < |ds| => Decimal(ds[i]))
  }

  lemma DigitsOnly(s: string)
    requires AllDigits(s)
    ensures NoSpace(s) && Strip(s) == s
    ensures '/' !in s && ',' !in s
  {
    assert !IsSpace(s[0]) && !IsSpace(s[|s| - 1]);
    assert Strip(s) == s by {
      StripPadded([], s, []);
      assert [] + s + [] == s;
    }
  }

  /** Day numbers written as `d1/d2/...` are read back as exactly those days. */
  lemma HolidayRoundTrip(ds: seq<nat>)
    requires |ds| >= 1
    ensures HolidayDays(JoinWith(Decimals(ds), '/')) == set d | d in ds
  {
    HolidayOfTokens(Decimals(ds));
    DecimalsValues(ds);
  }

  /** Digit tokens joined by `/` are read back token by token. */
  lemma HolidayOfTokens(parts: seq<string>)
    requires |parts| >= 1
    requires forall k :: 0 <= k < |parts| ==> AllDigits(parts[k])
    ensures HolidayDays(JoinWith(parts, '/')) == DigitTokenValues(parts)
  {
    var text := JoinWith(parts, '/');
    PlainTokens(parts);
    StripJoined(parts, '/');
    SplitJoin(parts, '/');
    assert StripEach(parts) == parts;
  }

  /** Each digit token is whitespace-free and has no separator in it. */
  lemma PlainTokens(parts: seq<string>)
    requires forall k :: 0 <= k < |parts| ==> AllDigits(parts[k])
    ensures forall k :: 0 <= k < |parts| ==> parts[k] != [] && NoSpace(parts[k])
    ensures forall k :: 0 <= k < |parts| ==> Strip(parts[k]) == parts[k]
    ensures forall k :: 0 <= k < |parts| ==> '/' !in parts[k] && ',' !in parts[k]
  {
    forall k | 0 <= k < |parts|
      ensures NoSpace(parts[k]) && Strip(parts[k]) == parts[k] && '/' !in parts[k] && ',' !in parts[k]
    {
      DigitsOnly(parts[k]);
    }
  }

  /** Reading back the decimal spellings gives the days. */
  lemma DecimalsValues(ds: seq<nat>)
    ensures DigitTokenValues(Decimals(ds)) == set d | d in ds
  {
    var parts := Decimals(ds);
    var got := DigitTokenValues(parts);
    forall d | d in got ensures d in ds {
      var tok :| tok in parts && AllDigits(tok) && DigitsValue(tok) == d;
      var k :| 0 <= k < |parts| && parts[k] == tok;
      assert d == ds[k];
    }
    forall d | d in ds ensures d in got {
      var k :| 0 <= k < |ds| && ds[k] == d;
      assert parts[k] in parts;
    }
  }

  /** Joined digit strings have no outer whitespace and are unchanged by lower-casing. */
  lemma StripJoined(parts: seq<string>, sep: char)
    requires |parts| >= 1
    requires forall k :: 0 <= k < |parts| ==> AllDigits(parts[k])
    requires !('A' <= sep <= 'Z')
    ensures Strip(JoinWith(parts, sep)) == JoinWith(parts, sep)
    ensures Lower(JoinWith(parts, sep)) == JoinWith(parts, sep)
  {
    var text := JoinWith(parts, sep);
    JoinEnds(parts, sep);
    StripPadded([], text, []);
    assert [] + text + [] == text;
    JoinDigitsLower(parts, sep);
  }

  /** Joining non-empty digit strings keeps a digit at each end. */
  lemma {:induction false} JoinEnds(parts: seq<string>, sep: char)
    requires |parts| >= 1
    requires forall k :: 0 <= k < |parts| ==> AllDigits(parts[k])
    ensures var s := JoinWith(parts, sep); |s| > 0 && IsDigit(s[0]) && IsDigit(s[|s| - 1])
    decreases |parts|
  {
    if |parts| > 1 {
      JoinEnds(parts[1..], sep);
      var tail := JoinWith(parts[1..], sep);
      var s := JoinWith(parts, sep);
      assert s == parts[0] + ([sep] + tail);
      assert s[0] == parts[0][0];
      assert s[|s| - 1] == tail[|tail| - 1];
    }
  }

  /** Day numbers written as `d1,d2,...` are read back as exactly those days. */
  lemma LeaveRoundTrip(ds: seq<nat>)
    requires |ds| >= 1
    ensures BlockedDays(JoinWith(Decimals(ds), ',')) == set d | d in ds
  {
    LeaveOfTokens(Decimals(ds));
    DecimalsValues(ds);
  }

  /** Digit tokens joined by commas are read back token by token. */
  lemma LeaveOfTokens(parts: seq<string>)
    requires |parts| >= 1
    requires forall k :: 0 <= k < |parts| ==> AllDigits(parts[k])
    ensures BlockedDays(JoinWith(parts, ',')) == DigitTokenValues(parts)
  {
    var text := JoinWith(parts, ',');
    PlainTokens(parts);
    StripJoined(parts, ',');
    JoinReplace(parts, ',', ' ');
    WordsOfJoin(parts);
  }

  lemma {:induction false} JoinDigitsLower(parts: seq<string>, sep: char)
    requires |parts| >= 1
    requires forall k :: 0 <= k < |parts| ==> AllDigits(parts[k])
    requires !('A' <= sep <= 'Z')
    ensures Lower(JoinWith(parts, sep)) == JoinWith(parts, sep)
    decreases |parts|
  {
    var s := JoinWith(parts, sep);
    if |parts| > 1 {
      JoinDigitsLower(parts[1..], sep);
      var tail := JoinWith(parts[1..], sep);
      assert s == parts[0] + [sep] + tail;
      forall i | 0 <= i < |s| ensures LowerChar(s[i]) == s[i] {
        if i < |parts[0]| {
          assert s[i] == parts[0][i];
        } else if i > |parts[0]| {
          assert s[i] == tail[i - |parts[0]| - 1];
          assert LowerChar(tail[i - |parts[0]| - 1]) == Lower(tail)[i - |parts[0]| - 1];
        }
      }
    } else {
      assert forall i :: 0 <= i < |s| ==> IsDigit(s[i]);
    }
  }

  lemma {:induction false} JoinReplace(parts: seq<string>, a: char, b: char)
    requires |parts| >= 1
    requires forall k :: 0 <= k < |parts| ==> a !in parts[k]
    ensures Replace(JoinWith(parts, a), a, b) == JoinWith(parts, b)
    decreases |parts|
  {
    var s := JoinWith(parts, a);
    if |parts| == 1 {
      assert Replace(s, a, b) == s;
    } else {
      JoinReplace(parts[1..], a, b);
      var tail := JoinWith(parts[1..], a);
      var p := parts[0];
      assert s == p + [a] + tail;
      var r := Replace(s, a, b);
      assert r == p + [b] + JoinWith(parts[1..], b) by {
        forall i | 0 <= i < |s| ensures r[i] == (p + [b] + Replace(tail, a, b))[i] {
          if i < |p| {
            assert s[i] == p[i];
          } else if i > |p| {
            assert s[i] == tail[i - |p| - 1];
          }
        }
      }
    }
  }

  /** The sentinel is recognised whatever its letter case and surrounding whitespace. */
  lemma FrozenSentinel(pre: string, post: string)
    requires AllSpace(pre) && AllSpace(post)
    ensures IsFrozenText(pre + "Frozen" + post)
    ensures IsFrozenText(pre + "FROZEN" + post)
    ensures !IsFrozenText(pre + "frozen 3" + post)
  {
    assert Strip(pre + "Frozen" + post) == "Frozen" by { StripPadded(pre, "Frozen", post); }
    assert Strip(pre + "FROZEN" + post) == "FROZEN" by { StripPadded(pre, "FROZEN", post); }
    assert Strip(pre + "frozen 3" + post) == "frozen 3" by { StripPadded(pre, "frozen 3", post); }
    LowerSentinels();
  }

  lemma LowerSentinels()
    ensures Lower("Frozen") == "frozen" && Lower("FROZEN") == "frozen" && Lower("frozen 3") != "frozen"
  {
  }

  /** Commas and runs of spaces both separate days; a token that is not all digits, such as
      `5/12`, is skipped rather than rejected. */
  lemma LeaveExamples()
    ensures BlockedDays("5, 12 19") == {5, 12, 19}
    ensures BlockedDays("5/12") == {}
    ensures BlockedDays("") == {}
  {
    assert Lower(Strip("5, 12 19")) == "5, 12 19";
    assert Replace("5, 12 19", ',', ' ') == "5  12 19";
    LeaveExampleWords();
    LeaveExampleValues();
    SlashTokenSkipped();
  }

  lemma LeaveExampleWords()
    ensures Words("5  12 19") == ["5", "12", "19"]
  {
    WordsExampleHead();
    WordsExampleGap();
    WordsExampleTail();
  }

  lemma WordsExampleHead()
    ensures Words("5  12 19") == ["5"] + Words("  12 19")
  {
    var s := "5  12 19";
    assert WordLen(s) == 1;
    assert s[..1] == "5" && s[1..] == "  12 19";
  }

  lemma WordsExampleGap()
    ensures Words("  12 19") == Words("12 19")
  {
    WordsSkipSpace("  ", "12 19");
    assert "  " + "12 19" == "  12 19";
  }

  lemma WordsExampleTail()
    ensures Words("12 19") == ["12", "19"]
  {
    assert NoSpace("12") && NoSpace("19");
    WordsOfJoin(["12", "19"]);
    assert JoinWith(["12", "19"], ' ') == "12 19";
  }

  lemma LeaveExampleValues()
    ensures DigitTokenValues(["5", "12", "19"]) == {5, 12, 19}
  {
    assert DigitsValue("5") == 5;
    assert DigitsValue("12") == 12;
    assert DigitsValue("19") == 19;
  }

  lemma SlashTokenSkipped()
    ensures BlockedDays("5/12") == {}
  {
    assert Lower(Strip("5/12")) == "5/12";
    assert Replace("5/12", ',', ' ') == "5/12";
    assert Words("5/12") == ["5/12"] by {
      var s := "5/12";
      assert WordLen(s) == 4;
      assert s[..4] == s && s[4..] == [];
    }
    assert !AllDigits("5/12") by { assert !IsDigit("5/12"[1]); }
  }

  /** Pieces are stripped before the digit test, and a piece that is not all digits is skipped. */
  lemma HolidayExamples()
    ensures HolidayDays("5 / x /19") == {5, 19}
    ensures HolidayDays("") == {}
  {
    assert Strip("5 / x /19") == "5 / x /19";
    HolidayExamplePieces();
    HolidayExampleStripped();
    HolidayExampleValues();
  }

  lemma HolidayExamplePieces()
    ensures SplitOn("5 / x /19", '/') == ["5 ", " x ", "19"]
  {
    SplitJoin(["5 ", " x ", "19"], '/');
    assert JoinWith(["5 ", " x ", "19"], '/') == "5 / x /19";
  }

  lemma HolidayExampleStripped()
    ensures StripEach(["5 ", " x ", "19"]) == ["5", "x", "19"]
  {
    assert Strip("5 ") == "5";
    assert Strip(" x ") == "x";
    assert Strip("19") == "19";
  }

  lemma HolidayExampleValues()
    ensures DigitTokenValues(["5", "x", "19"]) == {5, 19}
  {
    assert !AllDigits("x") by { assert !IsDigit("x"[0]); }
    assert DigitsValue("5") == 5;
    assert DigitsValue("19") == 19;
    assert "5" in ["5", "x", "19"] && "19" in ["5", "x", "19"];
  }
}
