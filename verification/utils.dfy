/** The kebab-case to camelCase converter: `string.replace(/-./g, x => x[1].toUpperCase())`.

    The regular expression `-.` matches a hyphen followed by any one character
    other than a line terminator. The global replace scans left to right and
    takes non-overlapping matches; each match is replaced by its second
    character upper-cased. */
module Utils {

  /** The characters the regular-expression atom `.` does not match
      (the ECMAScript line terminators LF, CR, LS and PS). */
  predicate IsLineTerminator(c: char) {
    c == '\n' || c == '\r' || c == '\U{2028}' || c == '\U{2029}'
  }

  predicate IsLowerAscii(c: char) {
    'a' <= c <= 'z'
  }

  /** Upper-casing restricted to ASCII: a lower-case Latin letter becomes
      its capital, every other character is left alone. */
  function ToUpper(c: char): (u: char)
    ensures IsLowerAscii(c) ==> 'A' <= u <= 'Z' && u as int + 32 == c as int
    ensures u == c <==> !IsLowerAscii(c)
  {
    if IsLowerAscii(c) then (c as int - 32) as char else c
  }

  /** Lower-casing restricted to ASCII, the inverse of `ToUpper` on letters. */
  function ToLower(c: char): (l: char)
    ensures 'A' <= c <= 'Z' ==> IsLowerAscii(l) && ToUpper(l) == c
    ensures l == c <==> !('A' <= c <= 'Z')
  {
    if 'A' <= c <= 'Z' then (c as int + 32) as char else c
  }

  predicate NoHyphen(s: string) {
    forall i :: 0 <= i < |s| ==> s[i] != '-'
  }

  /** The regular expression `-.` matches at position `i` of `s`. */
  predicate MatchesAt(s: string, i: int)
    requires 0 <= i
  {
    i + 1 < |s| && s[i] == '-' && !IsLineTerminator(s[i + 1])
  }

  /** The converter itself. The scan position is the head of `s`: a match
      there consumes two characters and emits the second one upper-cased;
      otherwise one character is copied and the scan moves on by one. */
  function KebabToCamelCase(s: string): (r: string)
    ensures |r| <= |s|
    ensures |s| > 0 && s[0] != '-' ==> |r| > 0 && r[0] == s[0]
    ensures |s| > 0 ==> |r| > 0
    decreases |s|
  {
    if |s| == 0 then ""
    else if MatchesAt(s, 0) then [ToUpper(s[1])] + KebabToCamelCase(s[2..])
    else [s[0]] + KebabToCamelCase(s[1..])
  }

  /* ---------- An independent description: greedy tokenisations ---------- */

  /** A piece of the input: `Match(c)` stands for the two characters `-c`
      that the regular expression consumed, `Plain(c)` for one character
      copied unchanged. */
  datatype Token = Match(c: char) | Plain(c: char)

  /** The input text a token sequence covers. */
  function Source(ts: seq<Token>): string {
    if |ts| == 0 then ""
    else (match ts[0] case Match(c) => ['-', c] case Plain(c) => [c]) + Source(ts[1..])
  }

  /** The output text: each match replaced by its upper-cased character. */
  function Render(ts: seq<Token>): string {
    if |ts| == 0 then ""
    else (match ts[0] case Match(c) => [ToUpper(c)] case Plain(c) => [c]) + Render(ts[1..])
  }

  function MatchCount(ts: seq<Token>): nat {
    if |ts| == 0 then 0 else (if ts[0].Match? then 1 else 0) + MatchCount(ts[1..])
  }

  /** What a left-to-right, non-overlapping scan for `-.` must produce:
      every match really is one (its character is not a line terminator),
      and a hyphen copied as plain text could not have started a match,
      because it is last or the next character is a line terminator. */
  predicate Greedy(ts: seq<Token>) {
    forall i :: 0 <= i < |ts| ==> TokenFits(ts, i)
  }

  predicate TokenFits(ts: seq<Token>, i: int)
    requires 0 <= i < |ts|
  {
    match ts[i]
    case Match(c) => !IsLineTerminator(c)
    case Plain(c) => c == '-' ==> i + 1 == |ts| || (ts[i + 1].Plain? && IsLineTerminator(ts[i + 1].c))
  }

  lemma GreedyTail(ts: seq<Token>)
    requires |ts| > 0 && Greedy(ts)
    ensures Greedy(ts[1..])
  {
    forall i | 0 <= i < |ts[1..]|
      ensures TokenFits(ts[1..], i)
    {
      assert TokenFits(ts, i + 1);
    }
  }

  /** Any greedy tokenisation of `s` renders to the converter's output:
      the converter is exactly "replace every greedy match". */
  lemma {:induction false} GreedyRenderIsConversion(ts: seq<Token>, s: string)
    requires Source(ts) == s && Greedy(ts)
    ensures Render(ts) == KebabToCamelCase(s)
    decreases |ts|
  {
    if |ts| > 0 {
      assert TokenFits(ts, 0);
      GreedyTail(ts);
      GreedyRenderIsConversion(ts[1..], Source(ts[1..]));
      match ts[0]
      case Match(c) =>
        assert s == ['-', c] + Source(ts[1..]);
        assert MatchesAt(s, 0);
        assert s[2..] == Source(ts[1..]);
      case Plain(c) =>
        assert s == [c] + Source(ts[1..]);
        assert s[1..] == Source(ts[1..]);
        if c == '-' && |ts| > 1 {
          assert TokenFits(ts[1..], 0);
          assert Source(ts[1..]) == [ts[1].c] + Source(ts[2..]);
        }
        assert !MatchesAt(s, 0);
    }
  }

  /** The scan itself, as a tokenisation. */
  function Tokenize(s: string): (ts: seq<Token>)
    ensures Source(ts) == s
    ensures |ts| > 0 ==> (ts[0].Plain? <==> !MatchesAt(s, 0))
    decreases |s|
  {
    if |s| == 0 then []
    else if MatchesAt(s, 0) then [Match(s[1])] + Tokenize(s[2..])
    else [Plain(s[0])] + Tokenize(s[1..])
  }

  lemma {:induction false} TokenizeIsGreedy(s: string)
    ensures Greedy(Tokenize(s))
    decreases |s|
  {
    var ts := Tokenize(s);
    if |s| > 0 {
      var rest := if MatchesAt(s, 0) then s[2..] else s[1..];
      TokenizeIsGreedy(rest);
      assert ts == [ts[0]] + Tokenize(rest);
      forall i | 0 <= i < |ts|
        ensures TokenFits(ts, i)
      {
        if i > 0 {
          assert TokenFits(Tokenize(rest), i - 1);
        } else if ts[0] == Plain('-') && |ts| > 1 {
          assert !MatchesAt(s, 0) && s[0] == '-';
          assert |s| > 1 && IsLineTerminator(s[1]);
          assert !MatchesAt(rest, 0);
        }
      }
    }
  }

  /** The number of non-overlapping `-.` matches in `s`. */
  function Matches(s: string): nat {
    MatchCount(Tokenize(s))
  }

  lemma {:induction false} RenderLength(ts: seq<Token>)
    ensures |Render(ts)| + MatchCount(ts) == |Source(ts)|
  {
    if |ts| > 0 {
      RenderLength(ts[1..]);
    }
  }

  /** The output is the input shortened by one character per match. */
  lemma {:induction false} ConversionLength(s: string)
    ensures |KebabToCamelCase(s)| == |s| - Matches(s)
  {
    TokenizeIsGreedy(s);
    GreedyRenderIsConversion(Tokenize(s), s);
    RenderLength(Tokenize(s));
  }

  /* ---------- Properties of the converter ---------- */

  /** A string without hyphens comes back unchanged (`'color'` stays `'color'`). */
  lemma {:induction false} HyphenFreeUnchanged(s: string)
    requires NoHyphen(s)
    ensures KebabToCamelCase(s) == s
    decreases |s|
  {
    if |s| > 0 {
      assert !MatchesAt(s, 0);
      HyphenFreeUnchanged(s[1..]);
      assert s == [s[0]] + s[1..];
    }
  }

  /** The first hyphen, when something other than a line terminator follows
      it, is removed and that character upper-cased; the scan continues
      after it. With `c == '-'` this is the collapse of `--` to `-`. */
  lemma {:induction false} FirstHyphenRewrite(x: string, c: char, y: string)
    requires NoHyphen(x) && !IsLineTerminator(c)
    ensures KebabToCamelCase(x + ['-', c] + y) == x + [ToUpper(c)] + KebabToCamelCase(y)
    decreases |x|
  {
    var s := x + ['-', c] + y;
    if |x| == 0 {
      assert s == ['-', c] + y;
      assert MatchesAt(s, 0);
      assert s[2..] == y;
    } else {
      assert !MatchesAt(s, 0);
      assert s[1..] == x[1..] + ['-', c] + y;
      FirstHyphenRewrite(x[1..], c, y);
      assert x == [x[0]] + x[1..];
    }
  }

  /** A hyphen in front of a line terminator is not a match: both characters survive. */
  lemma {:induction false} HyphenBeforeLineTerminatorKept(x: string, t: char, y: string)
    requires NoHyphen(x) && IsLineTerminator(t)
    ensures KebabToCamelCase(x + ['-', t] + y) == x + ['-', t] + KebabToCamelCase(y)
    decreases |x|
  {
    var s := x + ['-', t] + y;
    if |x| == 0 {
      assert !MatchesAt(s, 0);
      assert s[1..] == [t] + y;
      assert !MatchesAt(s[1..], 0);
      assert s[1..][1..] == y;
    } else {
      assert !MatchesAt(s, 0);
      assert s[1..] == x[1..] + ['-', t] + y;
      HyphenBeforeLineTerminatorKept(x[1..], t, y);
      assert x == [x[0]] + x[1..];
    }
  }

  /** A string ending in a hyphen converts to one ending in a hyphen: the
      final hyphen is either left alone or is the character of a `--` match,
      whose upper case is a hyphen again. */
  lemma {:induction false} TrailingHyphenKept(s: string)
    requires |s| > 0 && s[|s| - 1] == '-'
    ensures var r := KebabToCamelCase(s); |r| > 0 && r[|r| - 1] == '-'
    decreases |s|
  {
    if MatchesAt(s, 0) {
      if |s| > 2 {
        TrailingHyphenKept(s[2..]);
      }
    } else if |s| > 1 {
      TrailingHyphenKept(s[1..]);
    }
  }

  /** Every hyphen starts a match whose character is neither a hyphen nor a
      line terminator. */
  predicate Isolated(s: string) {
    forall i :: 0 <= i < |s| && s[i] == '-' ==> i + 1 < |s| && s[i + 1] != '-' && !IsLineTerminator(s[i + 1])
  }

  lemma IsolatedTail(s: string, k: nat)
    requires Isolated(s) && k <= |s|
    ensures Isolated(s[k..])
  {
  }

  /** The output is hyphen-free exactly when every hyphen of the input is
      followed by a character that is neither a hyphen nor a line terminator.
      (Having no `--` and no trailing hyphen is not enough: `"-\n"` keeps its hyphen.) */
  lemma {:induction false} HyphenFreeOutputIff(s: string)
    ensures NoHyphen(KebabToCamelCase(s)) <==> Isolated(s)
    decreases |s|
  {
    var r := KebabToCamelCase(s);
    if |s| > 0 {
      if MatchesAt(s, 0) {
        HyphenFreeOutputIff(s[2..]);
        assert r == [ToUpper(s[1])] + KebabToCamelCase(s[2..]);
        if Isolated(s) {
          IsolatedTail(s, 2);
          assert forall i :: 0 <= i < |r| ==> r[i] != '-' by {
            assert r[0] != '-';
            assert forall i :: 1 <= i < |r| ==> r[i] == KebabToCamelCase(s[2..])[i - 1];
          }
        } else if s[1] != '-' {
          var i :| 0 <= i < |s| && s[i] == '-' && !(i + 1 < |s| && s[i + 1] != '-' && !IsLineTerminator(s[i + 1]));
          assert i >= 2;
          assert s[2..][i - 2] == '-';
          assert !Isolated(s[2..]);
          var j :| 0 <= j < |KebabToCamelCase(s[2..])| && KebabToCamelCase(s[2..])[j] == '-';
          assert r[j + 1] == '-';
        } else {
          assert r[0] == '-';
        }
      } else {
        HyphenFreeOutputIff(s[1..]);
        assert r == [s[0]] + KebabToCamelCase(s[1..]);
        if Isolated(s) {
          IsolatedTail(s, 1);
          assert s[0] != '-';
          assert forall i :: 1 <= i < |r| ==> r[i] == KebabToCamelCase(s[1..])[i - 1];
        } else if s[0] != '-' {
          var i :| 0 <= i < |s| && s[i] == '-' && !(i + 1 < |s| && s[i + 1] != '-' && !IsLineTerminator(s[i + 1]));
          assert i >= 1;
          assert s[1..][i - 1] == '-';
          assert !Isolated(s[1..]);
          var j :| 0 <= j < |KebabToCamelCase(s[1..])| && KebabToCamelCase(s[1..])[j] == '-';
          assert r[j + 1] == '-';
        } else {
          assert r[0] == '-';
        }
      }
    }
  }

  /** No position of `s` starts a match of `-.`. */
  predicate NoMatch(s: string) {
    forall i :: 0 <= i < |s| ==> !MatchesAt(s, i)
  }

  lemma NoMatchTail(s: string, k: nat)
    requires NoMatch(s) && k <= |s|
    ensures NoMatch(s[k..])
  {
    forall i | 0 <= i < |s[k..]| ensures !MatchesAt(s[k..], i) {
      assert !MatchesAt(s, i + k);
    }
  }

  /** A string with no match of `-.` is returned unchanged; this covers
      hyphens before line terminators and a trailing hyphen, not only
      hyphen-free names. */
  lemma {:induction false} NoMatchUnchanged(s: string)
    requires NoMatch(s)
    ensures KebabToCamelCase(s) == s
    decreases |s|
  {
    if |s| > 0 {
      assert !MatchesAt(s, 0);
      NoMatchTail(s, 1);
      NoMatchUnchanged(s[1..]);
      assert s == [s[0]] + s[1..];
    }
  }

  /** A string with a match of `-.` is shortened by the conversion. */
  lemma {:induction false} MatchShortens(s: string, i: nat)
    requires MatchesAt(s, i)
    ensures |KebabToCamelCase(s)| < |s|
    decreases |s|
  {
    if !MatchesAt(s, 0) {
      assert i >= 1 && MatchesAt(s[1..], i - 1);
      MatchShortens(s[1..], i - 1);
    }
  }

  /** The strings the converter leaves unchanged are exactly those with no
      match of `-.`. */
  lemma FixedPointIff(s: string)
    ensures KebabToCamelCase(s) == s <==> NoMatch(s)
  {
    if NoMatch(s) {
      NoMatchUnchanged(s);
    } else {
      var i :| 0 <= i < |s| && MatchesAt(s, i);
      MatchShortens(s, i);
    }
  }

  /** No hyphen is directly followed by another hyphen. */
  predicate NoDoubleHyphen(s: string) {
    forall i :: 0 <= i < |s| - 1 && s[i] == '-' ==> s[i + 1] != '-'
  }

  /** Without `--` in the input the output has no match of `-.`: a matched
      character is then never a hyphen, and a hyphen copied unchanged is
      last or followed by the line terminator copied after it. */
  lemma {:induction false} OutputNoMatch(s: string)
    requires NoDoubleHyphen(s)
    ensures NoMatch(KebabToCamelCase(s))
    decreases |s|
  {
    var r := KebabToCamelCase(s);
    if |s| > 0 {
      var k := if MatchesAt(s, 0) then 2 else 1;
      var rest := KebabToCamelCase(s[k..]);
      assert NoDoubleHyphen(s[k..]) by {
        forall i | 0 <= i < |s[k..]| - 1 && s[k..][i] == '-' ensures s[k..][i + 1] != '-' {
          assert s[i + k] == '-';
        }
      }
      OutputNoMatch(s[k..]);
      assert r == [r[0]] + rest;
      assert !MatchesAt(r, 0) by {
        if MatchesAt(s, 0) {
          assert r[0] == ToUpper(s[1]) && s[1] != '-';
        } else if s[0] == '-' && |s| > 1 {
          assert IsLineTerminator(s[1]) && rest[0] == s[1];
        }
      }
      forall i | 1 <= i < |r| ensures !MatchesAt(r, i) {
        assert !MatchesAt(rest, i - 1);
      }
    }
  }

  /** On an input without `--`, converting twice is the same as converting
      once. (`a--b` shows that the premise is needed.) */
  lemma IdempotentWithoutDoubleHyphen(s: string)
    requires NoDoubleHyphen(s)
    ensures KebabToCamelCase(KebabToCamelCase(s)) == KebabToCamelCase(s)
  {
    OutputNoMatch(s);
    NoMatchUnchanged(KebabToCamelCase(s));
  }

  /** The examples: `background-color` becomes `backgroundColor`, `a--b`
      becomes `a-b`, and the converter is therefore not idempotent. */
  lemma ConversionExamples()
    ensures KebabToCamelCase("background-color") == "backgroundColor"
    ensures KebabToCamelCase("a--b") == "a-b"
    ensures KebabToCamelCase(KebabToCamelCase("a--b")) != KebabToCamelCase("a--b")
    ensures KebabToCamelCase("a-b") == "aB"
    ensures KebabToCamelCase(KebabToCamelCase("a-\nb")) == KebabToCamelCase("a-\nb")
    ensures KebabToCamelCase("a-\nb") == "a-\nb"
  {
    FirstHyphenRewrite("background", 'c', "olor");
    assert "background-color" == "background" + ['-', 'c'] + "olor";
    HyphenFreeUnchanged("olor");
    assert "background" + ['C'] + "olor" == "backgroundColor";
    FirstHyphenRewrite("a", '-', "b");
    assert "a--b" == "a" + ['-', '-'] + "b";
    HyphenFreeUnchanged("b");
    assert "a" + ['-'] + "b" == "a-b";
    FirstHyphenRewrite("a", 'b', "");
    assert "a-b" == "a" + ['-', 'b'] + "";
    assert "a" + ['B'] + "" == "aB";
    assert NoDoubleHyphen("a-\nb");
    IdempotentWithoutDoubleHyphen("a-\nb");
    NoMatchUnchanged("a-\nb");
  }
}
