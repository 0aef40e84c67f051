/** The few pieces of Python's `str` behaviour that the SLA text builders rely on:
    `strip()`, `sep.join(...)`, `split(sep)` with a one-character separator,
    `count`, `replace` of one character by another, `zfill` and `lower()`. */
module PyText {

  /** The characters for which Python's `str.isspace()` holds: Unicode
      category Zs and bidirectional classes WS, B and S. */
  const Whitespace: set<char> := {
    '\t', '\n', '\U{B}', '\U{C}', '\r', '\U{1C}', '\U{1D}', '\U{1E}', '\U{1F}', ' ',
    '\U{85}', '\U{A0}', '\U{1680}',
    '\U{2000}', '\U{2001}', '\U{2002}', '\U{2003}', '\U{2004}', '\U{2005}',
    '\U{2006}', '\U{2007}', '\U{2008}', '\U{2009}', '\U{200A}',
    '\U{2028}', '\U{2029}', '\U{202F}', '\U{205F}', '\U{3000}'
  }

  predicate IsSpace(c: char) {
    c in Whitespace
  }

  predicate AllSpace(s: string) {
    forall i :: 0 <= i < |s| ==> IsSpace(s[i])
  }

  /** `s.lstrip(chars)`: the longest suffix of `s` that does not start with
      one of `chars`. */
  function TrimStart(s: string, chars: set<char>): (r: string)
    ensures |r| <= |s| && r == s[|s| - |r|..]
    ensures forall i :: 0 <= i < |s| - |r| ==> s[i] in chars
    ensures r == [] || r[0] !in chars
  {
    if |s| > 0 && s[0] in chars then TrimStart(s[1..], chars) else s
  }

  /** `s.rstrip(chars)`: the longest prefix of `s` that does not end with
      one of `chars`. */
  function TrimEnd(s: string, chars: set<char>): (r: string)
    ensures |r| <= |s| && r == s[..|r|]
    ensures forall i :: |r| <= i < |s| ==> s[i] in chars
    ensures r == [] || r[|r| - 1] !in chars
  {
    if |s| > 0 && s[|s| - 1] in chars then TrimEnd(s[..|s| - 1], chars) else s
  }

  lemma TrimBothEmpty(s: string, chars: set<char>)
    ensures TrimEnd(TrimStart(s, chars), chars) == [] <==> forall i :: 0 <= i < |s| ==> s[i] in chars
  {
    var t := TrimStart(s, chars);
    var lo := |s| - |t|;
    assert forall i :: lo <= i < |s| ==> s[i] == t[i - lo];
  }

  /** `s.strip(chars)`: `s` without the characters of `chars` at either end. */
  function StripBy(s: string, chars: set<char>): (r: string)
    ensures r == [] <==> forall i :: 0 <= i < |s| ==> s[i] in chars
    ensures r != [] ==> r[0] !in chars && r[|r| - 1] !in chars
  {
    TrimBothEmpty(s, chars);
    TrimEnd(TrimStart(s, chars), chars)
  }

  /** `s.strip(chars)` is the infix of `s` that starts where `s.lstrip(chars)`
      starts, and everything around it belongs to `chars`. */
  lemma StripByInfix(s: string, chars: set<char>)
    ensures var r := StripBy(s, chars); var lo := |s| - |TrimStart(s, chars)|;
            && lo + |r| <= |s|
            && (forall k :: 0 <= k < |r| ==> r[k] == s[lo + k])
            && (forall i :: 0 <= i < lo ==> s[i] in chars)
            && (forall i :: lo + |r| <= i < |s| ==> s[i] in chars)
  {
    var t := TrimStart(s, chars);
    var r := TrimEnd(t, chars);
    assert StripBy(s, chars) == r;
  }

  /** `s.strip()`: `s` without its leading and trailing whitespace. */
  function Strip(s: string): (r: string)
    ensures r == [] <==> AllSpace(s)
    ensures r != [] ==> !IsSpace(r[0]) && !IsSpace(r[|r| - 1])
  {
    StripBy(s, Whitespace)
  }

  /** Every character of `s.strip(chars)` is a character of `s`. */
  lemma StripByKeeps(s: string, chars: set<char>, c: char)
    requires c in StripBy(s, chars)
    ensures c in s
  {
    var r := StripBy(s, chars);
    var lo := |s| - |TrimStart(s, chars)|;
    StripByInfix(s, chars);
    var k :| 0 <= k < |r| && r[k] == c;
    assert s[lo + k] == c;
  }

  /** Every character of `Strip(s)` is a character of `s`. */
  lemma StripChars(s: string, c: char)
    requires c in Strip(s)
    ensures c in s
  {
    StripByKeeps(s, Whitespace, c);
  }

  /** Stripping twice is stripping once. */
  lemma StripIdempotent(s: string)
    ensures Strip(Strip(s)) == Strip(s)
  {
    var r := Strip(s);
    assert TrimStart(r, Whitespace) == r;
    assert TrimEnd(r, Whitespace) == r;
  }

  /** `sep.join(parts)`. */
  function Join(parts: seq<string>, sep: string): (r: string)
    ensures |parts| > 0 ==> |parts[0]| <= |r| && r[..|parts[0]|] == parts[0]
  {
    if |parts| == 0 then ""
    else if |parts| == 1 then parts[0]
    else parts[0] + sep + Join(parts[1..], sep)
  }

  /** Three parts joined. */
  lemma JoinThree(a: string, b: string, c: string, sep: string)
    ensures Join([a, b, c], sep) == a + sep + b + sep + c
  {
    assert [b, c][1..] == [c];
    assert [a, b, c][1..] == [b, c];
    assert Join([b, c], sep) == b + sep + c;
  }

  /** A joined text ends with its last part. */
  lemma {:induction false} JoinEndsWithLast(parts: seq<string>, sep: string)
    requires |parts| > 0
    ensures var r := Join(parts, sep); var last := parts[|parts| - 1];
            && |last| <= |r| && r[|r| - |last|..] == last
            && (|last| > 0 ==> r[|r| - 1] == last[|last| - 1])
  {
    if |parts| > 1 {
      JoinEndsWithLast(parts[1..], sep);
      var tail := Join(parts[1..], sep);
      assert Join(parts, sep) == (parts[0] + sep) + tail;
    }
  }

  /** With a non-empty separator, a join is empty exactly when there is
      nothing to join or the only part is empty. */
  lemma JoinIsEmpty(parts: seq<string>, sep: string)
    requires sep != ""
    ensures Join(parts, sep) == "" <==> parts == [] || parts == [""]
  {
    if |parts| > 1 {
      assert |Join(parts, sep)| >= |sep|;
    }
  }

  /** A character of a join comes from the separator or from one of the parts. */
  lemma {:induction false} JoinChars(parts: seq<string>, sep: string, c: char)
    requires c in Join(parts, sep)
    ensures c in sep || exists i :: 0 <= i < |parts| && c in parts[i]
  {
    if |parts| > 1 {
      var tail := Join(parts[1..], sep);
      assert Join(parts, sep) == parts[0] + sep + tail;
      if c !in parts[0] && c !in sep {
        JoinChars(parts[1..], sep, c);
        var i :| 0 <= i < |parts[1..]| && c in parts[1..][i];
        assert c in parts[i + 1];
      }
    } else {
      assert c in parts[0];
    }
  }

  /** `part in s` for strings: `part` occurs somewhere in `s`. */
  predicate IsInfix(part: string, s: string) {
    exists i :: 0 <= i <= |s| && part <= s[i..]
  }

  lemma InfixAt(part: string, s: string, i: nat)
    requires i + |part| <= |s| && s[i..i + |part|] == part
    ensures IsInfix(part, s)
  {
    assert part <= s[i..];
  }

  lemma InfixExtend(x: string, s: string, t: string)
    requires IsInfix(x, s)
    ensures IsInfix(x, s + t) && IsInfix(x, t + s)
  {
    var i :| 0 <= i <= |s| && x <= s[i..];
    InfixAt(x, s + t, i);
    InfixAt(x, t + s, |t| + i);
  }

  lemma InfixMiddle(p: string, x: string, q: string)
    ensures IsInfix(x, p + x + q)
  {
    var s := p + x + q;
    assert s[|p|..|p| + |x|] == x;
    InfixAt(x, s, |p|);
  }

  /** `s.count(c)` for a one-character `c`. */
  function Count(s: string, c: char): (n: nat)
    ensures n <= |s|
    ensures n == 0 <==> c !in s
  {
    if s == [] then 0 else (if s[0] == c then 1 else 0) + Count(s[1..], c)
  }

  /** `s.split(sep)` for a one-character separator: the pieces between the
      occurrences of `sep`, empty pieces included. */
  function Split(s: string, sep: char): (r: seq<string>)
    ensures |r| >= 1
  {
    if s == [] then [""]
    else
      var tail := Split(s[1..], sep);
      if s[0] == sep then [""] + tail
      else [[s[0]] + tail[0]] + tail[1..]
  }

  /** Splitting yields one piece more than there are separators. */
  lemma {:induction false} SplitCount(s: string, sep: char)
    ensures |Split(s, sep)| == Count(s, sep) + 1
  {
    if s != [] {
      SplitCount(s[1..], sep);
    }
  }

  /** No piece of a split contains the separator. */
  lemma {:induction false} SplitPiecesFree(s: string, sep: char)
    ensures forall i :: 0 <= i < |Split(s, sep)| ==> sep !in Split(s, sep)[i]
  {
    if s != [] {
      SplitPiecesFree(s[1..], sep);
    }
  }

  lemma JoinConsFirst(c: char, parts: seq<string>, sep: string)
    requires |parts| > 0
    ensures Join([[c] + parts[0]] + parts[1..], sep) == [c] + Join(parts, sep)
  {
    var ps := [[c] + parts[0]] + parts[1..];
    assert ps[1..] == parts[1..];
  }

  /** Re-joining the pieces of a split with the separator gives the text back. */
  lemma {:induction false} JoinSplit(s: string, sep: char)
    ensures Join(Split(s, sep), [sep]) == s
  {
    if s != [] {
      var tail := Split(s[1..], sep);
      JoinSplit(s[1..], sep);
      if s[0] == sep {
        assert ([""] + tail)[1..] == tail;
      } else {
        JoinConsFirst(s[0], tail, [sep]);
      }
      assert s == [s[0]] + s[1..];
    }
  }

  /** A text without the separator splits into itself alone. */
  lemma {:induction false} SplitFree(s: string, sep: char)
    requires sep !in s
    ensures Split(s, sep) == [s]
  {
    if s != [] {
      SplitFree(s[1..], sep);
      assert s == [s[0]] + s[1..];
    }
  }

  lemma {:induction false} SplitAfterPiece(p: string, sep: char, t: string)
    requires sep !in p
    ensures Split(p + [sep] + t, sep) == [p] + Split(t, sep)
  {
    if p == [] {
      assert p + [sep] + t == [sep] + t;
      assert ([sep] + t)[1..] == t;
    } else {
      SplitAfterPiece(p[1..], sep, t);
      assert (p + [sep] + t)[1..] == p[1..] + [sep] + t;
      assert p == [p[0]] + p[1..];
    }
  }

  /** Splitting a join of separator-free parts gives the parts back. */
  lemma {:induction false} SplitJoin(parts: seq<string>, sep: char)
    requires |parts| > 0
    requires forall i :: 0 <= i < |parts| ==> sep !in parts[i]
    ensures Split(Join(parts, [sep]), sep) == parts
  {
    if |parts| == 1 {
      SplitFree(parts[0], sep);
    } else {
      var rest := Join(parts[1..], [sep]);
      assert Join(parts, [sep]) == parts[0] + [sep] + rest;
      SplitJoin(parts[1..], sep);
      SplitAfterPiece(parts[0], sep, rest);
      assert parts == [parts[0]] + parts[1..];
    }
  }

  /** `s.replace(old, new)` for one character by one character. */
  function Replace(s: string, target: char, replacement: char): (r: string)
    ensures |r| == |s|
    ensures forall i :: 0 <= i < |s| ==> r[i] == if s[i] == target then replacement else s[i]
  {
    if s == [] then [] else [if s[0] == target then replacement else s[0]] + Replace(s[1..], target, replacement)
  }

  /** After replacing every `target`, none is left. */
  lemma ReplaceRemoves(s: string, target: char, replacement: char)
    requires target != replacement
    ensures target !in Replace(s, target, replacement)
  {
    var r := Replace(s, target, replacement);
    forall i | 0 <= i < |r| ensures r[i] != target {}
  }

  /** `n` copies of '0'. */
  function Zeros(n: nat): (r: string)
    ensures |r| == n
    ensures forall i :: 0 <= i < n ==> r[i] == '0'
  {
    if n == 0 then [] else ['0'] + Zeros(n - 1)
  }

  /** `s.zfill(width)`: pad on the left with '0' up to `width`, keeping a
      leading sign in front of the padding. */
  function ZFill(s: string, width: nat): (r: string)
    ensures |r| == if |s| >= width then |s| else width
    ensures |s| >= width ==> r == s
    ensures |s| < width && |s| > 0 && (s[0] == '+' || s[0] == '-') ==>
              r[0] == s[0] && r[1..width - |s| + 1] == Zeros(width - |s|) && r[width - |s| + 1..] == s[1..]
    ensures |s| < width && (|s| == 0 || (s[0] != '+' && s[0] != '-')) ==>
              r[..width - |s|] == Zeros(width - |s|) && r[width - |s|..] == s
  {
    if |s| >= width then s
    else if |s| > 0 && (s[0] == '+' || s[0] == '-') then [s[0]] + Zeros(width - |s|) + s[1..]
    else Zeros(width - |s|) + s
  }

  /** `zfill` adds nothing but '0's. */
  lemma ZFillChars(s: string, width: nat, c: char)
    requires c in ZFill(s, width)
    ensures c in s || c == '0'
  {
    var r := ZFill(s, width);
    var k :| 0 <= k < |r| && r[k] == c;
    if |s| < width {
      if |s| > 0 && (s[0] == '+' || s[0] == '-') {
        if k > width - |s| {
          assert r[k] == r[width - |s| + 1..][k - (width - |s| + 1)];
        } else if k > 0 {
          assert r[k] == r[1..width - |s| + 1][k - 1];
        }
      } else if k >= width - |s| {
        assert r[k] == r[width - |s|..][k - (width - |s|)];
      } else {
        assert r[k] == r[..width - |s|][k];
      }
    }
  }

  /** `s.lower()` restricted to the ASCII letters; every other character is
      kept as it is. */
  function Lower(s: string): (r: string)
    ensures |r| == |s|
    ensures forall i :: 0 <= i < |s| ==> r[i] == if 'A' <= s[i] <= 'Z' then (s[i] as int + 32) as char else s[i]
  {
    if s == [] then []
    else [if 'A' <= s[0] <= 'Z' then (s[0] as int + 32) as char else s[0]] + Lower(s[1..])
  }

  /** The answer test of the interactive prompts: `reply.lower() == 'y'`. */
  predicate IsYes(reply: string) {
    Lower(reply) == "y"
  }

  /** Exactly the replies "y" and "Y" are affirmative. */
  lemma IsYesExactly(reply: string)
    ensures IsYes(reply) <==> reply == "y" || reply == "Y"
  {
    if IsYes(reply) {
      assert |reply| == 1;
      assert reply == [reply[0]];
    }
  }
}
