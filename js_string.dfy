/** The few JavaScript string operations the calendar code is built from,
    over strings taken as sequences of characters: a global single-character
    `replace`, `split(sep)[0]`, `join`, `split` on CRLF, `trim` and the
    ASCII part of `toLowerCase`, plus the truthiness test behind `a || b`. */
module JsString {

  datatype Option<+T> = None | Some(value: T) {
    predicate IsFailure() { None? }

    function PropagateFailure<U>(): Option<U>
      requires None?
    {
      None
    }

    function Extract(): T
      requires Some?
    {
      value
    }
  }

  /** JavaScript truthiness of an optional string: present and non-empty. */
  predicate Truthy(o: Option<string>) {
    o.Some? && o.value != ""
  }

  /** `a || b` on an optional string and a string: the first operand when it
      is truthy, else the second, so the result is falsy only when both are. */
  function OrElse(a: Option<string>, b: string): (r: string)
    ensures Truthy(a) ==> Some(r) == a
    ensures !Truthy(a) ==> r == b
    ensures Truthy(Some(r)) <==> Truthy(a) || Truthy(Some(b))
  {
    if Truthy(a) then a.value else b
  }

  predicate StartsWith(s: string, prefix: string) {
    |prefix| <= |s| && s[..|prefix|] == prefix
  }

  predicate EndsWith(s: string, suffix: string) {
    |suffix| <= |s| && s[|s| - |suffix|..] == suffix
  }

  /** `s.replace(/c/g, rep)`: every occurrence of the character `c` is
      replaced by `rep`, scanning left to right, replacements not rescanned. */
  function ReplaceAll(s: string, c: char, rep: string): (r: string)
    ensures c !in rep ==> c !in r
    ensures c !in s ==> r == s
  {
    if s == [] then []
    else (if s[0] == c then rep else [s[0]]) + ReplaceAll(s[1..], c, rep)
  }

  lemma {:induction false} ReplaceAllConcat(a: string, b: string, c: char, rep: string)
    ensures ReplaceAll(a + b, c, rep) == ReplaceAll(a, c, rep) + ReplaceAll(b, c, rep)
  {
    if a == [] {
      assert a + b == b;
    } else {
      var ab := a + b;
      assert ab != [] && ab[0] == a[0] && ab[1..] == a[1..] + b;
      var head := if a[0] == c then rep else [a[0]];
      var restA, restB := ReplaceAll(a[1..], c, rep), ReplaceAll(b, c, rep);
      calc {
        ReplaceAll(ab, c, rep);
        head + ReplaceAll(a[1..] + b, c, rep);
        { ReplaceAllConcat(a[1..], b, c, rep); }
        head + (restA + restB);
        (head + restA) + restB;
      }
    }
  }

  /** `s.replace(/[...]/g, '')`: every character of the class `cs` is removed. */
  function RemoveAll(s: string, cs: set<char>): (r: string)
    ensures |r| <= |s|
    ensures forall k :: 0 <= k < |r| ==> r[k] !in cs
  {
    if s == [] then []
    else (if s[0] in cs then [] else [s[0]]) + RemoveAll(s[1..], cs)
  }

  lemma {:induction false} RemoveAllNone(s: string, cs: set<char>)
    requires forall k :: 0 <= k < |s| ==> s[k] !in cs
    ensures RemoveAll(s, cs) == s
  {
    if s != [] {
      RemoveAllNone(s[1..], cs);
    }
  }

  lemma {:induction false} RemoveAllConcat(a: string, b: string, cs: set<char>)
    ensures RemoveAll(a + b, cs) == RemoveAll(a, cs) + RemoveAll(b, cs)
  {
    if a == [] {
      assert a + b == b;
    } else {
      var ab := a + b;
      assert ab != [] && ab[0] == a[0] && ab[1..] == a[1..] + b;
      var head := if a[0] in cs then [] else [a[0]];
      var restA, restB := RemoveAll(a[1..], cs), RemoveAll(b, cs);
      calc {
        RemoveAll(ab, cs);
        head + RemoveAll(a[1..] + b, cs);
        { RemoveAllConcat(a[1..], b, cs); }
        head + (restA + restB);
        (head + restA) + restB;
      }
    }
  }

  /** `s.split(sep)[0]`: the text before the first `sep`, or all of `s`. */
  function BeforeFirst(s: string, sep: char): (r: string)
    ensures |r| <= |s| && r == s[..|r|]
    ensures sep !in r
    ensures |r| < |s| ==> s[|r|] == sep
  {
    if s == [] || s[0] == sep then [] else [s[0]] + BeforeFirst(s[1..], sep)
  }

  lemma {:induction false} BeforeFirstConcat(a: string, sep: char, b: string)
    requires sep !in a
    ensures BeforeFirst(a + b, sep) == a + BeforeFirst(b, sep)
  {
    if a == [] {
      assert a + b == b;
    } else {
      var ab := a + b;
      assert ab != [] && ab[0] == a[0] && ab[1..] == a[1..] + b;
      assert sep !in a[1..];
      calc {
        BeforeFirst(ab, sep);
        [a[0]] + BeforeFirst(a[1..] + b, sep);
        { BeforeFirstConcat(a[1..], sep, b); }
        [a[0]] + (a[1..] + BeforeFirst(b, sep));
        { assert [a[0]] + a[1..] == a; }
        a + BeforeFirst(b, sep);
      }
    }
  }

  /** The cut stops at the first separator. */
  lemma BeforeFirstStops(a: string, sep: char, b: string)
    requires sep !in a
    ensures BeforeFirst(a + ([sep] + b), sep) == a
  {
    BeforeFirstConcat(a, sep, [sep] + b);
    assert a + [] == a;
  }

  /** `lines.join(sep)`: the lines with `sep` between neighbours and nothing
      after the last one. */
  function Join(lines: seq<string>, sep: string): (r: string)
    ensures |lines| > 0 ==> |r| == TotalLength(lines) + SeparatorsLength(|lines| - 1, sep)
  {
    if lines == [] then []
    else if |lines| == 1 then lines[0]
    else lines[0] + sep + Join(lines[1..], sep)
  }

  /** The number of characters in `n` copies of `sep`. */
  function SeparatorsLength(n: nat, sep: string): nat {
    if n == 0 then 0 else |sep| + SeparatorsLength(n - 1, sep)
  }

  /** The number of characters in all the lines together. */
  function TotalLength(lines: seq<string>): nat {
    if lines == [] then 0 else |lines[0]| + TotalLength(lines[1..])
  }

  /** A join starts with the first line and ends with the last one: nothing
      is written before the first line or after the last. */
  lemma {:induction false} JoinEnds(lines: seq<string>, sep: string)
    requires |lines| > 0
    ensures StartsWith(Join(lines, sep), lines[0])
    ensures EndsWith(Join(lines, sep), lines[|lines| - 1])
  {
    if |lines| > 1 {
      var rest := Join(lines[1..], sep);
      var r := lines[0] + sep + rest;
      assert Join(lines, sep) == r;
      JoinEnds(lines[1..], sep);
      assert r[..|lines[0]|] == lines[0];
      var last := lines[|lines| - 1];
      assert lines[1..][|lines| - 2] == last;
      assert r[|r| - |last|..] == rest[|rest| - |last|..];
    }
  }

  /** A join splits at any inner boundary into the joins of the two parts,
      with one separator between them. */
  lemma {:induction false} JoinAt(lines: seq<string>, sep: string, k: nat)
    requires 0 < k < |lines|
    ensures Join(lines, sep) == Join(lines[..k], sep) + sep + Join(lines[k..], sep)
  {
    if k == 1 {
      assert lines[..1] == [lines[0]];
      assert lines[1..] == lines[k..];
    } else {
      var head, rest := lines[0], lines[1..];
      assert rest[..k - 1] == lines[..k][1..];
      assert rest[k - 1..] == lines[k..];
      var mid, tail := Join(rest[..k - 1], sep), Join(rest[k - 1..], sep);
      calc {
        Join(lines, sep);
        head + sep + Join(rest, sep);
        { JoinAt(rest, sep, k - 1); }
        head + sep + (mid + sep + tail);
        (head + sep + mid) + sep + tail;
        Join(lines[..k], sep) + sep + Join(lines[k..], sep);
      }
    }
  }

  /** The join around an inner line: the lines before it, a separator, the
      line, a separator and the lines after it. */
  lemma JoinAround(lines: seq<string>, sep: string, i: nat)
    requires 0 < i < |lines| - 1
    ensures Join(lines, sep) == Join(lines[..i], sep) + sep + lines[i] + (sep + Join(lines[i + 1..], sep))
  {
    var before, after := Join(lines[..i], sep), Join(lines[i + 1..], sep);
    var rest := lines[i..];
    assert rest[..1] == [lines[i]] && rest[1..] == lines[i + 1..];
    assert Join(rest, sep) == lines[i] + sep + after by {
      JoinAt(rest, sep, 1);
    }
    JoinAt(lines, sep, i);
    assert before + sep + (lines[i] + sep + after) == before + sep + lines[i] + (sep + after);
  }

  /** Two joins of lists that agree everywhere but at one inner line are
      equal only when that line is equal too. */
  lemma JoinSameAround(lines1: seq<string>, lines2: seq<string>, sep: string, i: nat)
    requires |lines1| == |lines2| && 0 < i < |lines1| - 1
    requires forall k :: 0 <= k < |lines1| && k != i ==> lines1[k] == lines2[k]
    requires Join(lines1, sep) == Join(lines2, sep)
    ensures lines1[i] == lines2[i]
  {
    assert lines1[..i] == lines2[..i];
    assert lines1[i + 1..] == lines2[i + 1..];
    JoinAround(lines1, sep, i);
    JoinAround(lines2, sep, i);
    MiddleCancel(Join(lines1[..i], sep) + sep, lines1[i], lines2[i], sep + Join(lines1[i + 1..], sep));
  }

  /** Equal texts with equal surroundings have equal middles. */
  lemma MiddleCancel(a: string, x1: string, x2: string, b: string)
    requires a + x1 + b == a + x2 + b
    ensures x1 == x2
  {
    assert |x1| == |x2|;
    assert x1 == (a + x1 + b)[|a|..|a| + |x1|];
    assert x2 == (a + x2 + b)[|a|..|a| + |x2|];
  }

  const CRLF: string := "\r\n"

  /** `s.split("\r\n")`: the pieces between CRLF pairs, found left to right. */
  function SplitCrlf(s: string): (pieces: seq<string>)
    ensures |pieces| > 0
    decreases |s|
  {
    if s == [] then [[]]
    else if |s| >= 2 && s[0] == '\r' && s[1] == '\n' then [[]] + SplitCrlf(s[2..])
    else
      var rest := SplitCrlf(s[1..]);
      [[s[0]] + rest[0]] + rest[1..]
  }

  lemma {:induction false} SplitCrlfLine(line: string, t: string)
    requires '\n' !in line
    ensures SplitCrlf(line + CRLF + t) == [line] + SplitCrlf(t)
    ensures SplitCrlf(line) == [line]
  {
    if line == [] {
      assert line + CRLF + t == CRLF + t;
      assert (CRLF + t)[2..] == t;
    } else {
      var s := line + CRLF + t;
      assert s[1..] == line[1..] + CRLF + t;
      assert s[1] != '\n' by {
        if |line| >= 2 { assert s[1] == line[1]; } else { assert s[1] == '\r'; }
      }
      SplitCrlfLine(line[1..], t);
      assert [line[0]] + line[1..] == line;
    }
  }

  /** Splitting the CRLF join of lines that hold no line feed gives the lines back. */
  lemma {:induction false} SplitJoin(lines: seq<string>)
    requires |lines| > 0
    requires forall i :: 0 <= i < |lines| ==> '\n' !in lines[i]
    ensures SplitCrlf(Join(lines, CRLF)) == lines
  {
    if |lines| == 1 {
      SplitCrlfLine(lines[0], []);
    } else {
      var rest := Join(lines[1..], CRLF);
      assert Join(lines, CRLF) == lines[0] + CRLF + rest;
      assert '\n' !in lines[0];
      SplitCrlfLine(lines[0], rest);
      forall i | 0 <= i < |lines[1..]|
        ensures '\n' !in lines[1..][i]
      {
        assert lines[1..][i] == lines[i + 1];
      }
      SplitJoin(lines[1..]);
      assert [lines[0]] + lines[1..] == lines;
    }
  }

  // ---------------------------------------------------------------------
  // Stripping the characters of a set from both ends
  // ---------------------------------------------------------------------

  /** The number of characters of `ws` at the start of `s`. */
  function LeadingRun(s: string, ws: set<char>): (n: nat)
    ensures n <= |s|
    ensures n < |s| ==> s[n] !in ws
  {
    if s == [] || s[0] !in ws then 0 else 1 + LeadingRun(s[1..], ws)
  }

  /** The number of characters of `ws` at the end of `s`. */
  function TrailingRun(s: string, ws: set<char>): (n: nat)
    ensures n <= |s|
    ensures n < |s| ==> s[|s| - 1 - n] !in ws
  {
    if s == [] || s[|s| - 1] !in ws then 0 else 1 + TrailingRun(s[..|s| - 1], ws)
  }

  /** What the leading run covers is made of `ws` only. */
  lemma {:induction false} LeadingRunIn(s: string, ws: set<char>)
    ensures forall k :: 0 <= k < LeadingRun(s, ws) ==> s[k] in ws
  {
    if s != [] && s[0] in ws {
      LeadingRunIn(s[1..], ws);
      forall k | 0 < k < LeadingRun(s, ws)
        ensures s[k] in ws
      {
        assert s[k] == s[1..][k - 1];
      }
    }
  }

  /** What the trailing run covers is made of `ws` only. */
  lemma {:induction false} TrailingRunIn(s: string, ws: set<char>)
    ensures forall k :: |s| - TrailingRun(s, ws) <= k < |s| ==> s[k] in ws
  {
    if s != [] && s[|s| - 1] in ws {
      var init := s[..|s| - 1];
      TrailingRunIn(init, ws);
      forall k | |s| - TrailingRun(s, ws) <= k < |s| - 1
        ensures s[k] in ws
      {
        assert s[k] == init[k];
      }
    }
  }

  /** The leading run stops at the first character outside `ws`. */
  lemma {:induction false} LeadingRunBound(s: string, ws: set<char>, lo: nat)
    requires lo < |s| && s[lo] !in ws
    ensures LeadingRun(s, ws) <= lo
  {
    if lo > 0 && s[0] in ws {
      assert s[1..][lo - 1] == s[lo];
      LeadingRunBound(s[1..], ws, lo - 1);
    }
  }

  /** The trailing run stops at the last character outside `ws`. */
  lemma {:induction false} TrailingRunBound(s: string, ws: set<char>, hi: nat)
    requires 0 < hi <= |s| && s[hi - 1] !in ws
    ensures hi <= |s| - TrailingRun(s, ws)
  {
    if hi < |s| && s[|s| - 1] in ws {
      assert s[..|s| - 1][hi - 1] == s[hi - 1];
      TrailingRunBound(s[..|s| - 1], ws, hi);
    }
  }

  /** `s` without its leading and trailing runs of `ws`: the stretch from the
      first to the last character outside `ws`, or empty when there is none. */
  function Strip(s: string, ws: set<char>): (r: string)
    ensures |r| <= |s|
    ensures r == [] <==> forall k :: 0 <= k < |s| ==> s[k] in ws
  {
    var i := LeadingRun(s, ws);
    LeadingRunIn(s, ws);
    if i == |s| then []
    else
      TrailingRunBound(s, ws, i + 1);
      s[i..|s| - TrailingRun(s, ws)]
  }

  /** A stripped string is empty or begins and ends outside `ws`. */
  lemma StripEnds(s: string, ws: set<char>)
    ensures var t := Strip(s, ws);
      t == [] || (t[0] !in ws && t[|t| - 1] !in ws)
  {
    var i := LeadingRun(s, ws);
    if i < |s| {
      TrailingRunBound(s, ws, i + 1);
      var t := Strip(s, ws);
      assert t[0] == s[i];
      assert t[|t| - 1] == s[|s| - 1 - TrailingRun(s, ws)];
    }
  }

  /** Stripping removes only the runs: any stretch of `s` that begins and ends
      outside `ws` survives intact, shifted by the leading run. */
  lemma StripKeeps(s: string, ws: set<char>, lo: nat, hi: nat)
    requires lo < hi <= |s| && s[lo] !in ws && s[hi - 1] !in ws
    ensures LeadingRun(s, ws) <= lo
    ensures var i := LeadingRun(s, ws);
      hi - i <= |Strip(s, ws)| && Strip(s, ws)[lo - i..hi - i] == s[lo..hi]
  {
    var i := LeadingRun(s, ws);
    LeadingRunBound(s, ws, lo);
    TrailingRunBound(s, ws, hi);
    var e := |s| - TrailingRun(s, ws);
    assert Strip(s, ws) == s[i..e];
    SliceOfSlice(s, i, e, lo, hi);
  }

  lemma SliceOfSlice(s: string, i: nat, e: nat, lo: nat, hi: nat)
    requires i <= lo <= hi <= e <= |s|
    ensures s[i..e][lo - i..hi - i] == s[lo..hi]
  {
    var t := s[i..e][lo - i..hi - i];
    forall k | 0 <= k < hi - lo
      ensures t[k] == s[lo + k]
    {
      assert t[k] == s[i..e][lo - i + k];
    }
  }

  /** A string that ends outside `ws` loses only its leading run. */
  lemma StripEndsKept(s: string, ws: set<char>)
    requires |s| > 0 && s[|s| - 1] !in ws
    ensures Strip(s, ws) == s[LeadingRun(s, ws)..]
  {
    LeadingRunBound(s, ws, |s| - 1);
    assert TrailingRun(s, ws) == 0;
  }

  /** A string that begins and ends outside `ws` is its own strip. */
  lemma StripFixed(s: string, ws: set<char>)
    requires s == [] || (s[0] !in ws && s[|s| - 1] !in ws)
    ensures Strip(s, ws) == s
  {
    if s != [] {
      LeadingRunBound(s, ws, 0);
      StripEndsKept(s, ws);
    }
  }

  // ---------------------------------------------------------------------
  // trim
  // ---------------------------------------------------------------------

  /** The white space and line terminators that `String.prototype.trim` removes:
      tab, vertical tab, form feed, space, no-break space, byte order mark, the
      space separators of Unicode category Zs, line feed, carriage return,
      line separator and paragraph separator. */
  const WhiteSpaceChars: set<char> := {
    '\U{0009}', '\U{000B}', '\U{000C}', ' ', '\U{00A0}', '\U{FEFF}', '\U{1680}',
    '\U{2000}', '\U{2001}', '\U{2002}', '\U{2003}', '\U{2004}', '\U{2005}',
    '\U{2006}', '\U{2007}', '\U{2008}', '\U{2009}', '\U{200A}',
    '\U{202F}', '\U{205F}', '\U{3000}', '\n', '\r', '\U{2028}', '\U{2029}'
  }

  /** `s.trim()`. */
  function Trim(s: string): (r: string)
    ensures |r| <= |s|
    ensures r == [] <==> forall k :: 0 <= k < |s| ==> s[k] in WhiteSpaceChars
  {
    Strip(s, WhiteSpaceChars)
  }

  /** Trimming removes white space only, and only at the two ends: the
      characters removed in front and behind are white space, and the result
      is empty or begins and ends with a character that is not. */
  lemma TrimRemovesWhiteSpace(s: string)
    ensures forall k :: 0 <= k < LeadingRun(s, WhiteSpaceChars) ==> s[k] in WhiteSpaceChars
    ensures forall k :: |s| - TrailingRun(s, WhiteSpaceChars) <= k < |s| ==> s[k] in WhiteSpaceChars
    ensures Trim(s) == [] || (Trim(s)[0] !in WhiteSpaceChars && Trim(s)[|Trim(s)| - 1] !in WhiteSpaceChars)
  {
    LeadingRunIn(s, WhiteSpaceChars);
    TrailingRunIn(s, WhiteSpaceChars);
    StripEnds(s, WhiteSpaceChars);
  }

  /** Trimming twice is trimming once. */
  lemma TrimIdempotent(s: string)
    ensures Trim(Trim(s)) == Trim(s)
  {
    StripEnds(s, WhiteSpaceChars);
    StripFixed(Trim(s), WhiteSpaceChars);
  }

  lemma SpaceIsWhiteSpace()
    ensures ' ' in WhiteSpaceChars
  {
  }

  lemma CommaIsNotWhiteSpace()
    ensures ',' !in WhiteSpaceChars
  {
  }

  /** `part` occurs in `s` starting at index `k`. */
  predicate OccursAt(s: string, part: string, k: nat) {
    k + |part| <= |s| && s[k..k + |part|] == part
  }

  /** A stretch that begins and ends with a non-white-space character is still
      found in the trimmed string, shifted by the white space removed in front. */
  lemma TrimKeepsOccurrence(s: string, part: string, k: nat)
    requires OccursAt(s, part, k) && |part| > 0
    requires part[0] !in WhiteSpaceChars && part[|part| - 1] !in WhiteSpaceChars
    ensures LeadingRun(s, WhiteSpaceChars) <= k
    ensures OccursAt(Trim(s), part, k - LeadingRun(s, WhiteSpaceChars))
  {
    assert s[k] == part[0] && s[k + |part| - 1] == part[|part| - 1];
    StripKeeps(s, WhiteSpaceChars, k, k + |part|);
  }

  /** Everything from a non-white-space character on survives trimming, when
      the string ends in a non-white-space character. */
  lemma TrimKeepsTail(s: string, k: nat)
    requires k < |s| && s[k] !in WhiteSpaceChars && s[|s| - 1] !in WhiteSpaceChars
    ensures EndsWith(Trim(s), s[k..])
  {
    StripEndsKept(s, WhiteSpaceChars);
    LeadingRunBound(s, WhiteSpaceChars, k);
    var r := s[LeadingRun(s, WhiteSpaceChars)..];
    assert r[|r| - (|s| - k)..] == s[k..];
  }

  /** The ASCII letters and digits, the class `[a-z0-9]` under the `i` flag. */
  predicate IsAsciiAlphanumeric(c: char) {
    ('a' <= c <= 'z') || ('A' <= c <= 'Z') || ('0' <= c <= '9')
  }

  function LowerAsciiChar(c: char): (d: char)
    ensures 'A' <= c <= 'Z' ==> 'a' <= d <= 'z' && d as int - c as int == 32
    ensures !('A' <= c <= 'Z') ==> d == c
  {
    if 'A' <= c <= 'Z' then (c as int + 32) as char else c
  }

  /** `s.toLowerCase()` restricted to ASCII: upper-case ASCII letters become
      lower-case, every other character is kept. */
  function LowerAscii(s: string): (r: string)
    ensures |r| == |s|
    ensures forall k :: 0 <= k < |s| ==> r[k] == LowerAsciiChar(s[k])
    ensures forall k :: 0 <= k < |r| ==> !('A' <= r[k] <= 'Z')
  {
    seq(|s|, k requires 0 <= k < |s| => LowerAsciiChar(s[k]))
  }
}
