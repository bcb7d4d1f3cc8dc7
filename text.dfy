/**
 * The Python `str` operations the publishing scripts are built from:
 * whitespace tests, `strip`, `split(sep)`, `split()`, `join`, `replace`,
 * `startswith`, `in`, `lower`, `title` and decimal formatting.
 */
module Text {

  /** `c.isspace()`: the characters Python treats as whitespace. */
  predicate IsSpace(c: char)
  {
    var n := c as int;
    (9 <= n <= 13) || (28 <= n <= 32) || n == 0x85 || n == 0xA0 || n == 0x1680
    || (0x2000 <= n <= 0x200A) || n == 0x2028 || n == 0x2029 || n == 0x202F
    || n == 0x205F || n == 0x3000
  }

  /** `not s.strip()`: nothing but whitespace. */
  predicate IsBlank(s: string)
  {
    forall i | 0 <= i < |s| :: IsSpace(s[i])
  }

  /** A string with no whitespace character at all. */
  predicate NoSpace(s: string)
  {
    forall i | 0 <= i < |s| :: !IsSpace(s[i])
  }

  /** Neither end of `s` is whitespace (vacuously true of ""). */
  predicate Trimmed(s: string)
  {
    s != [] ==> !IsSpace(s[0]) && !IsSpace(s[|s| - 1])
  }

  predicate StartsWith(s: string, p: string)
  {
    |p| <= |s| && s[..|p|] == p
  }

  predicate EndsWith(s: string, p: string)
  {
    |p| <= |s| && s[|s| - |p|..] == p
  }

  /** `sub in s`. */
  predicate Contains(s: string, sub: string)
  {
    exists p | 0 <= p <= |s| :: StartsWith(s[p..], sub)
  }

  lemma ContainsAt(s: string, sub: string, p: nat)
    requires p + |sub| <= |s| && s[p..p + |sub|] == sub
    ensures Contains(s, sub)
  {
    assert StartsWith(s[p..], sub);
  }

  /** A string contains every infix of itself. */
  lemma {:induction false} ContainsTransitive(s: string, mid: string, sub: string)
    requires Contains(s, mid) && Contains(mid, sub)
    ensures Contains(s, sub)
  {
    var p :| 0 <= p <= |s| && StartsWith(s[p..], mid);
    var q :| 0 <= q <= |mid| && StartsWith(mid[q..], sub);
    assert s[p..p + |mid|] == mid;
    assert mid[q..q + |sub|] == sub;
    forall i | 0 <= i < |sub| ensures s[p + q + i] == sub[i] {
      assert s[p + q + i] == s[p..p + |mid|][q + i] == mid[q + i];
    }
    assert s[p + q..p + q + |sub|] == sub;
    ContainsAt(s, sub, p + q);
  }

  lemma ContainsAppendLeft(a: string, b: string, sub: string)
    requires Contains(b, sub)
    ensures Contains(a + b, sub)
  {
    var p :| 0 <= p <= |b| && StartsWith(b[p..], sub);
    assert (a + b)[|a| + p..] == b[p..];
    assert StartsWith((a + b)[|a| + p..], sub);
  }

  lemma ContainsAppendRight(a: string, b: string, sub: string)
    requires Contains(a, sub)
    ensures Contains(a + b, sub)
  {
    var p :| 0 <= p <= |a| && StartsWith(a[p..], sub);
    assert (a + b)[p..][..|sub|] == a[p..][..|sub|];
    assert StartsWith((a + b)[p..], sub);
  }

  /** A one-character needle is found exactly where that character occurs. */
  lemma ContainsChar(s: string, c: char)
    ensures Contains(s, [c]) <==> c in s
  {
    if c in s {
      var p :| 0 <= p < |s| && s[p] == c;
      ContainsAt(s, [c], p);
    }
    if Contains(s, [c]) {
      var p :| 0 <= p <= |s| && StartsWith(s[p..], [c]);
      assert s[p] == c;
    }
  }

  // ----- strip ---------------------------------------------------------

  function LStrip(s: string): (r: string)
    ensures |r| <= |s| && r == s[|s| - |r|..]
    ensures IsBlank(s[..|s| - |r|])
    ensures r != [] ==> !IsSpace(r[0])
    decreases |s|
  {
    if |s| > 0 && IsSpace(s[0]) then
      var r := LStrip(s[1..]);
      assert s[1..][|s| - 1 - |r|..] == s[|s| - |r|..];
      assert s[..|s| - |r|] == [s[0]] + s[1..][..|s| - 1 - |r|];
      r
    else s
  }

  function RStrip(s: string): (r: string)
    ensures |r| <= |s| && r == s[..|r|]
    ensures IsBlank(s[|r|..])
    ensures r != [] ==> !IsSpace(r[|r| - 1])
    decreases |s|
  {
    if |s| > 0 && IsSpace(s[|s| - 1]) then
      var init := s[..|s| - 1];
      var r := RStrip(init);
      assert init[..|r|] == s[..|r|];
      assert s[|r|..] == init[|r|..] + [s[|s| - 1]];
      r
    else s
  }

  /** A string is blank when its leading whitespace is all of it. */
  lemma LStripBlank(s: string)
    ensures LStrip(s) == [] <==> IsBlank(s)
  {
    var l := LStrip(s);
    if l != [] {
      assert l[0] == s[|s| - |l|];
    } else {
      assert s[..|s|] == s;
    }
  }

  /** Trailing whitespace stops at a non-space first character. */
  lemma {:induction false} RStripKeepsHead(s: string)
    requires s != [] && !IsSpace(s[0])
    ensures RStrip(s) != [] && RStrip(s)[0] == s[0]
    decreases |s|
  {
    if IsSpace(s[|s| - 1]) {
      var init := s[..|s| - 1];
      assert |s| >= 2;
      assert init[0] == s[0];
      RStripKeepsHead(init);
    }
  }

  /** `s.strip()`: the longest infix with no whitespace at either end. */
  function Strip(s: string): (r: string)
    ensures Trimmed(r)
    ensures |r| <= |s|
    ensures r == [] <==> IsBlank(s)
  {
    var l := LStrip(s);
    LStripBlank(s);
    if l == [] then RStrip(l)
    else RStripKeepsHead(l); RStrip(l)
  }

  /** Stripping a string that already has no whitespace at its ends changes nothing. */
  /** Stripping only removes characters. */
  lemma StripKeeps(s: string, c: char)
    requires c in Strip(s)
    ensures c in s
  {
    var l := LStrip(s);
    var r := RStrip(l);
    assert Strip(s) == r;
    var i :| 0 <= i < |r| && r[i] == c;
    var pre := l[..|r|];
    assert r == pre;
    assert pre[i] == l[i];
    var post := s[|s| - |l|..];
    assert l == post;
    assert post[i] == s[|s| - |l| + i];
  }

  lemma StripTrimmed(s: string)
    requires Trimmed(s)
    ensures Strip(s) == s
  {
  }

  /** `(" " + w).strip()` is `w` for a word. */
  lemma StripSpaceWord(w: string)
    requires w != [] && Trimmed(w)
    ensures Strip(" " + w) == w
  {
    var s := " " + w;
    assert s[1..] == w;
    assert IsSpace(s[0]);
    assert LStrip(s) == LStrip(w) == w;
    assert RStrip(w) == w;
  }

  /** `s.strip(chars)` for an explicit set of characters. */
  function StripSet(s: string, chars: set<char>): (r: string)
    ensures |r| <= |s|
    ensures r != [] ==> r[0] !in chars && r[|r| - 1] !in chars
    decreases |s|
  {
    if |s| > 0 && s[0] in chars then StripSet(s[1..], chars)
    else if |s| > 0 && s[|s| - 1] in chars then StripSet(s[..|s| - 1], chars)
    else s
  }

  // ----- split / join ----------------------------------------------------

  /** `sep.join(parts)`. */
  function Join(parts: seq<string>, sep: string): string
  {
    if |parts| == 0 then ""
    else if |parts| == 1 then parts[0]
    else parts[0] + sep + Join(parts[1..], sep)
  }

  /**
   * `s.split(sep)` for a non-empty separator: the pieces between the
   * leftmost non-overlapping occurrences of `sep`.
   */
  function Split(s: string, sep: string): (r: seq<string>)
    requires |sep| > 0
    ensures |r| >= 1
    decreases |s|
  {
    if |s| < |sep| then [s]
    else if s[..|sep|] == sep then [""] + Split(s[|sep|..], sep)
    else
      var rest := Split(s[1..], sep);
      [[s[0]] + rest[0]] + rest[1..]
  }

  /** Joining the pieces of a split with the same separator gives the string back. */
  lemma {:induction false} JoinSplit(s: string, sep: string)
    requires |sep| > 0
    ensures Join(Split(s, sep), sep) == s
    decreases |s|
  {
    if |s| < |sep| {
    } else if s[..|sep|] == sep {
      var rest := Split(s[|sep|..], sep);
      assert Split(s, sep) == [""] + rest;
      JoinSplit(s[|sep|..], sep);
      assert ([""] + rest)[1..] == rest;
      assert Join([""] + rest, sep) == "" + sep + Join(rest, sep);
      assert s == sep + s[|sep|..];
    } else {
      var rest := Split(s[1..], sep);
      assert Split(s, sep) == [[s[0]] + rest[0]] + rest[1..];
      JoinSplit(s[1..], sep);
      JoinConsHead(s[0], rest, sep);
      assert s == [s[0]] + s[1..];
    }
  }

  /** Prefixing the first part with a character prefixes the join with it. */
  lemma JoinConsHead(c: char, parts: seq<string>, sep: string)
    requires |parts| >= 1
    ensures Join([[c] + parts[0]] + parts[1..], sep) == [c] + Join(parts, sep)
  {
    var q := [[c] + parts[0]] + parts[1..];
    assert q[1..] == parts[1..];
  }

  /** No piece of a split contains the separator. */
  lemma {:induction false} SplitPiecesFree(s: string, sep: string)
    requires |sep| > 0
    ensures forall k | 0 <= k < |Split(s, sep)| :: !Contains(Split(s, sep)[k], sep)
    decreases |s|
  {
    var r := Split(s, sep);
    if |s| < |sep| {
      assert !Contains(s, sep) by {
        forall p | 0 <= p <= |s| ensures !StartsWith(s[p..], sep) { }
      }
    } else if s[..|sep|] == sep {
      SplitPiecesFree(s[|sep|..], sep);
      assert !Contains("", sep) by {
        assert forall p | 0 <= p <= 0 :: !StartsWith(""[p..], sep);
      }
      forall k | 0 <= k < |r| ensures !Contains(r[k], sep) {
        if k > 0 { assert r[k] == Split(s[|sep|..], sep)[k - 1]; }
      }
    } else {
      var rest := Split(s[1..], sep);
      SplitPiecesFree(s[1..], sep);
      var head := [s[0]] + rest[0];
      JoinSplit(s[1..], sep);
      assert head == s[..|head|] by {
        var j := Join(rest, sep);
        assert s == [s[0]] + j;
        assert |rest| == 1 || j == rest[0] + sep + Join(rest[1..], sep);
      }
      assert !Contains(head, sep) by {
        forall p | 0 <= p <= |head| ensures !StartsWith(head[p..], sep) {
          if p == 0 {
            assert |sep| <= |head| ==> head[..|sep|] == s[..|sep|];
          } else {
            assert head[p..] == rest[0][p - 1..];
            assert !StartsWith(rest[0][p - 1..], sep);
          }
        }
      }
      forall k | 0 <= k < |r| ensures !Contains(r[k], sep) {
        if k > 0 { assert r[k] == rest[k]; }
      }
    }
  }

  /** No occurrence of `sep` in `x + sep + ...` begins inside `x`. */
  predicate BreaksCleanly(x: string, sep: string)
  {
    forall p | 0 <= p < |x| :: !StartsWith((x + sep)[p..], sep)
  }

  /** Splitting `x + sep + y` cuts exactly after `x` when no occurrence begins inside `x`. */
  lemma {:induction false} SplitAfter(x: string, sep: string, y: string)
    requires |sep| > 0
    requires BreaksCleanly(x, sep)
    ensures Split(x + sep + y, sep) == [x] + Split(y, sep)
    decreases |x|
  {
    var s := x + sep + y;
    if |x| == 0 {
      assert s == sep + y;
      assert s[..|sep|] == sep;
      assert s[|sep|..] == y;
    } else {
      assert !StartsWith((x + sep)[0..], sep);
      assert (x + sep)[0..][..|sep|] == s[..|sep|];
      assert s[1..] == x[1..] + sep + y;
      assert BreaksCleanly(x[1..], sep) by {
        forall p | 0 <= p < |x| - 1 ensures !StartsWith((x[1..] + sep)[p..], sep) {
          assert (x[1..] + sep)[p..] == (x + sep)[p + 1..];
        }
      }
      SplitAfter(x[1..], sep, y);
      assert [s[0]] + x[1..] == x;
    }
  }

  /** A string without the separator is split into itself alone. */
  lemma {:induction false} SplitWhole(s: string, sep: string)
    requires |sep| > 0 && !Contains(s, sep)
    ensures Split(s, sep) == [s]
    decreases |s|
  {
    if |s| < |sep| {
    } else {
      assert !StartsWith(s[0..], sep);
      assert s[0..] == s;
      assert !Contains(s[1..], sep) by {
        forall p | 0 <= p <= |s| - 1 ensures !StartsWith(s[1..][p..], sep) {
          assert s[1..][p..] == s[p + 1..];
        }
      }
      SplitWhole(s[1..], sep);
      assert [s[0]] + s[1..] == s;
    }
  }

  /** Pieces from which a join can be split back. */
  predicate Rejoinable(parts: seq<string>, sep: string)
  {
    (forall k | 0 <= k < |parts| :: !Contains(parts[k], sep))
    && (forall k | 0 <= k < |parts| - 1 :: BreaksCleanly(parts[k], sep))
  }

  /** `sep.join(parts).split(sep) == parts` for rejoinable pieces. */
  lemma {:induction false} SplitJoin(parts: seq<string>, sep: string)
    requires |sep| > 0 && |parts| >= 1 && Rejoinable(parts, sep)
    ensures Split(Join(parts, sep), sep) == parts
    decreases |parts|
  {
    if |parts| == 1 {
      SplitWhole(parts[0], sep);
    } else {
      assert Rejoinable(parts[1..], sep) by {
        forall k | 0 <= k < |parts| - 2 ensures BreaksCleanly(parts[1..][k], sep) {
          assert parts[1..][k] == parts[k + 1];
        }
        forall k | 0 <= k < |parts| - 1 ensures !Contains(parts[1..][k], sep) {
          assert parts[1..][k] == parts[k + 1];
        }
      }
      SplitJoin(parts[1..], sep);
      SplitAfter(parts[0], sep, Join(parts[1..], sep));
      assert [parts[0]] + parts[1..] == parts;
    }
  }

  /** A paragraph-style piece (trimmed, no blank line inside) never runs into its neighbour. */
  lemma TrimmedBreaksCleanly(x: string)
    requires Trimmed(x) && !Contains(x, "\n\n")
    ensures BreaksCleanly(x, "\n\n")
  {
    forall p | 0 <= p < |x| ensures !StartsWith((x + "\n\n")[p..], "\n\n") {
      if p < |x| - 1 {
        assert (x + "\n\n")[p..][..2] == x[p..][..2];
        assert !StartsWith(x[p..], "\n\n");
      } else {
        assert (x + "\n\n")[p] == x[|x| - 1];
      }
    }
  }

  // ----- split() on whitespace -----------------------------------------

  /** Length of the run of non-whitespace characters at the start of `s`. */
  function WordLength(s: string): (n: nat)
    ensures n <= |s|
    ensures NoSpace(s[..n])
    ensures n < |s| ==> IsSpace(s[n])
    decreases |s|
  {
    if |s| == 0 || IsSpace(s[0]) then 0 else 1 + WordLength(s[1..])
  }

  /** `s.split()`: the maximal runs of non-whitespace characters, in order. */
  function Words(s: string): (r: seq<string>)
    ensures forall k | 0 <= k < |r| :: r[k] != [] && NoSpace(r[k])
    ensures r == [] <==> IsBlank(s)
    decreases |s|
  {
    if s == [] then []
    else if IsSpace(s[0]) then
      BlankTail(s);
      Words(s[1..])
    else
      var n := WordLength(s);
      [s[..n]] + Words(s[n..])
  }

  /** A string that starts with whitespace is blank exactly when the rest is. */
  lemma BlankTail(s: string)
    requires s != [] && IsSpace(s[0])
    ensures IsBlank(s) <==> IsBlank(s[1..])
  {
    if IsBlank(s[1..]) {
      forall i | 1 <= i < |s| ensures IsSpace(s[i]) { assert s[i] == s[1..][i - 1]; }
    }
  }

  /** A word sequence joined with single spaces splits back into the same words. */
  lemma {:induction false} WordsOfJoin(ws: seq<string>)
    requires forall k | 0 <= k < |ws| :: ws[k] != [] && NoSpace(ws[k])
    ensures Words(Join(ws, " ")) == ws
    decreases |ws|
  {
    if |ws| == 1 {
      WordsCons(ws[0], "");
      assert ws[0] + "" == ws[0];
      assert Words("") == [];
    } else if |ws| > 1 {
      var rest := Join(ws[1..], " ");
      calc {
        Words(Join(ws, " "));
        { assert Join(ws, " ") == ws[0] + (" " + rest); }
        Words(ws[0] + (" " + rest));
        { WordsCons(ws[0], " " + rest); }
        [ws[0]] + Words(" " + rest);
        { WordsSpace(rest); }
        [ws[0]] + Words(rest);
        { WordsOfJoin(ws[1..]); }
        [ws[0]] + ws[1..];
      }
    }
  }

  /** A leading space does not change the words. */
  lemma WordsSpace(rest: string)
    ensures Words(" " + rest) == Words(rest)
  {
    assert (" " + rest)[1..] == rest;
  }

  /** A word followed by whitespace or nothing is the first word. */
  lemma WordsCons(w: string, rest: string)
    requires w != [] && NoSpace(w)
    requires rest == [] || IsSpace(rest[0])
    ensures Words(w + rest) == [w] + Words(rest)
  {
    var s := w + rest;
    assert s[0] == w[0];
    WordLengthOfWord(w, rest);
    assert s[|w|..] == rest;
  }

  lemma {:induction false} WordLengthOfWord(w: string, tail: string)
    requires NoSpace(w)
    requires tail == [] || IsSpace(tail[0])
    ensures WordLength(w + tail) == |w|
    ensures (w + tail)[..|w|] == w
    decreases |w|
  {
    if |w| > 0 {
      assert (w + tail)[1..] == w[1..] + tail;
      WordLengthOfWord(w[1..], tail);
    }
  }

  /** A single-spaced join of words is trimmed and has each word in it, as its first and last part. */
  lemma JoinedWordsTrimmed(ws: seq<string>)
    requires |ws| >= 1 && forall k | 0 <= k < |ws| :: ws[k] != [] && NoSpace(ws[k])
    ensures Join(ws, " ") != [] && Trimmed(Join(ws, " "))
  {
    JoinFirstLast(ws, " ");
  }

  lemma {:induction false} JoinFirstLast(ws: seq<string>, sep: string)
    requires |ws| >= 1 && forall k | 0 <= k < |ws| :: ws[k] != []
    ensures var j := Join(ws, sep); j != [] && j[0] == ws[0][0] && j[|j| - 1] == ws[|ws| - 1][|ws[|ws| - 1]| - 1]
    decreases |ws|
  {
    if |ws| > 1 {
      JoinFirstLast(ws[1..], sep);
    }
  }

  /** Length of a single-spaced join. */
  function JoinedLength(ws: seq<string>): nat
  {
    if |ws| == 0 then 0 else if |ws| == 1 then |ws[0]| else |ws[0]| + 1 + JoinedLength(ws[1..])
  }

  lemma {:induction false} JoinLength(ws: seq<string>)
    ensures |Join(ws, " ")| == JoinedLength(ws)
    decreases |ws|
  {
    if |ws| > 1 { JoinLength(ws[1..]); }
  }

  /** Appending one more word to a non-empty single-spaced line. */
  lemma {:induction false} JoinSnoc(ws: seq<string>, w: string)
    requires |ws| >= 1
    ensures Join(ws + [w], " ") == Join(ws, " ") + " " + w
    decreases |ws|
  {
    if |ws| == 1 {
      assert ws + [w] == [ws[0], w];
    } else {
      assert (ws + [w])[1..] == ws[1..] + [w];
      JoinSnoc(ws[1..], w);
    }
  }

  /** Joining two non-empty runs of parts puts one separator between them. */
  lemma {:induction false} JoinAppend(a: seq<string>, b: seq<string>, sep: string)
    requires |a| >= 1 && |b| >= 1
    ensures Join(a + b, sep) == Join(a, sep) + sep + Join(b, sep)
    decreases |a|
  {
    if |a| == 1 {
      assert (a + b)[1..] == b;
    } else {
      assert (a + b)[1..] == a[1..] + b;
      JoinAppend(a[1..], b, sep);
    }
  }

  // ----- replace ---------------------------------------------------------

  /** `s.replace(pat, rep)` for a non-empty `pat`: leftmost, non-overlapping. */
  function Replace(s: string, pat: string, rep: string): string
    requires |pat| > 0
    decreases |s|
  {
    if |s| < |pat| then s
    else if s[..|pat|] == pat then rep + Replace(s[|pat|..], pat, rep)
    else [s[0]] + Replace(s[1..], pat, rep)
  }

  /** Python defines `s.replace(pat, rep)` as `rep.join(s.split(pat))`. */
  lemma {:induction false} ReplaceIsJoinOfSplit(s: string, pat: string, rep: string)
    requires |pat| > 0
    ensures Replace(s, pat, rep) == Join(Split(s, pat), rep)
    decreases |s|
  {
    if |s| < |pat| {
    } else if s[..|pat|] == pat {
      ReplaceIsJoinOfSplit(s[|pat|..], pat, rep);
    } else {
      ReplaceIsJoinOfSplit(s[1..], pat, rep);
      var rest := Split(s[1..], pat);
      if |rest| > 1 {
        assert Join(rest, rep) == rest[0] + rep + Join(rest[1..], rep);
      }
    }
  }

  /** Replacing a single character by the empty string removes every occurrence of it. */
  lemma {:induction false} RemoveChar(s: string, c: char)
    ensures c !in Replace(s, [c], "")
    ensures forall d | d in s && d != c :: d in Replace(s, [c], "")
    decreases |s|
  {
    if |s| >= 1 {
      RemoveChar(s[1..], c);
      assert s == [s[0]] + s[1..];
    }
  }

  /** Replacing leaves a string without the pattern untouched. */
  lemma {:induction false} ReplaceAbsent(s: string, pat: string, rep: string)
    requires |pat| > 0 && !Contains(s, pat)
    ensures Replace(s, pat, rep) == s
    decreases |s|
  {
    if |s| >= |pat| {
      assert !StartsWith(s[0..], pat);
      assert s[0..] == s;
      assert !Contains(s[1..], pat) by {
        forall p | 0 <= p <= |s| - 1 ensures !StartsWith(s[1..][p..], pat) {
          assert s[1..][p..] == s[p + 1..];
        }
      }
      ReplaceAbsent(s[1..], pat, rep);
      assert [s[0]] + s[1..] == s;
    }
  }

  /** Replacing a character by text without it leaves no occurrence of it. */
  lemma {:induction false} ReplaceCharGone(s: string, c: char, rep: string)
    requires c !in rep
    ensures c !in Replace(s, [c], rep)
    decreases |s|
  {
    if |s| >= 1 {
      ReplaceCharGone(s[1..], c, rep);
    }
  }

  /** Replacing a character by non-empty text empties only the empty string. */
  lemma ReplaceCharEmpty(s: string, c: char, rep: string)
    requires rep != []
    ensures Replace(s, [c], rep) == [] <==> s == []
  {
    if s != [] && s[0] != c {
      assert s[..1] != [c];
    }
  }

  /** Replacing skips a prefix in which no occurrence of the pattern begins. */
  lemma {:induction false} ReplaceSkip(x: string, y: string, pat: string, rep: string)
    requires |pat| > 0
    requires forall p | 0 <= p < |x| :: !StartsWith((x + y)[p..], pat)
    ensures Replace(x + y, pat, rep) == x + Replace(y, pat, rep)
    decreases |x|
  {
    var s := x + y;
    if x == [] {
      assert s == y;
    } else if |s| >= |pat| {
      assert !StartsWith(s[0..], pat);
      assert s[0..] == s;
      assert s[1..] == x[1..] + y;
      forall p | 0 <= p < |x| - 1 ensures !StartsWith((x[1..] + y)[p..], pat) {
        assert (x[1..] + y)[p..] == s[p + 1..];
      }
      ReplaceSkip(x[1..], y, pat, rep);
      assert [s[0]] + x[1..] == x;
    }
  }

  /** A character that is not in the pattern splits a replacement in two. */
  lemma {:induction false} ReplaceBreak(a: string, c: char, b: string, pat: string, rep: string)
    requires |pat| > 0 && c !in pat
    ensures Replace(a + [c] + b, pat, rep) == Replace(a, pat, rep) + [c] + Replace(b, pat, rep)
    decreases |a|
  {
    var s := a + [c] + b;
    if |s| < |pat| {
    } else if s[..|pat|] == pat {
      PrefixChar(s, pat, |a|);
      ReplaceBreak(a[|pat|..], c, b, pat, rep);
      BreakAtMatch(a, c, b, pat, rep);
    } else if a == [] {
      assert s == [c] + b && s[1..] == b;
    } else {
      ReplaceBreak(a[1..], c, b, pat, rep);
      BreakPastChar(a, c, b, pat, rep);
    }
  }

  /** The step of `ReplaceBreak` where the pattern opens the text. */
  lemma BreakAtMatch(a: string, c: char, b: string, pat: string, rep: string)
    requires 0 < |pat| <= |a| && a[..|pat|] == pat
    requires Replace(a[|pat|..] + [c] + b, pat, rep) == Replace(a[|pat|..], pat, rep) + [c] + Replace(b, pat, rep)
    ensures Replace(a + [c] + b, pat, rep) == Replace(a, pat, rep) + [c] + Replace(b, pat, rep)
  {
    var s := a + [c] + b;
    assert s[..|pat|] == pat;
    assert s[|pat|..] == a[|pat|..] + [c] + b;
  }

  /** The step of `ReplaceBreak` past a first character that does not open the pattern. */
  lemma BreakPastChar(a: string, c: char, b: string, pat: string, rep: string)
    requires |pat| > 0 && a != [] && |a + [c] + b| >= |pat| && (a + [c] + b)[..|pat|] != pat
    requires Replace(a[1..] + [c] + b, pat, rep) == Replace(a[1..], pat, rep) + [c] + Replace(b, pat, rep)
    ensures Replace(a + [c] + b, pat, rep) == Replace(a, pat, rep) + [c] + Replace(b, pat, rep)
  {
    var s := a + [c] + b;
    assert s[1..] == a[1..] + [c] + b;
    ReplaceHead(s, pat, rep);
    assert |a| >= |pat| ==> a[..|pat|] == s[..|pat|];
    ReplaceHead(a, pat, rep);
    ConsChain(Replace(s, pat, rep), Replace(a, pat, rep), Replace(a[1..], pat, rep), Replace(b, pat, rep), a[0], c);
  }

  /** Putting a head in front of a split text. */
  lemma ConsChain(whole: string, left: string, tail: string, right: string, x: char, c: char)
    requires whole == [x] + (tail + [c] + right) && left == [x] + tail
    ensures whole == left + [c] + right
  {
  }

  /** A text whose head does not open the pattern keeps that head in front. */
  lemma ReplaceHead(s: string, pat: string, rep: string)
    requires |pat| > 0 && s != [] && !(|pat| <= |s| && s[..|pat|] == pat)
    ensures Replace(s, pat, rep) == [s[0]] + Replace(s[1..], pat, rep)
  {
    if |s| < |pat| {
      assert [s[0]] + s[1..] == s;
    }
  }

  /** A text that opens with the pattern starts with the replacement. */
  lemma ReplaceLead(pat: string, t: string, rep: string)
    requires |pat| > 0
    ensures Replace(pat + t, pat, rep) == rep + Replace(t, pat, rep)
  {
    assert (pat + t)[..|pat|] == pat && (pat + t)[|pat|..] == t;
  }

  /** A character in neither the text nor the replacement is not in the result. */
  lemma {:induction false} ReplaceNoChar(s: string, pat: string, rep: string, c: char)
    requires |pat| > 0 && c !in s && c !in rep
    ensures c !in Replace(s, pat, rep)
    decreases |s|
  {
    if |s| >= |pat| {
      if s[..|pat|] == pat {
        assert forall i | 0 <= i < |s| - |pat| :: s[|pat|..][i] == s[i + |pat|];
        ReplaceNoChar(s[|pat|..], pat, rep, c);
      } else {
        assert forall i | 0 <= i < |s| - 1 :: s[1..][i] == s[i + 1];
        ReplaceNoChar(s[1..], pat, rep, c);
      }
    }
  }

  /** Title-casing changes only letters, so it never produces a character that is not a letter. */
  lemma TitleNoChar(s: string, c: char)
    requires c !in s && !IsLetter(c)
    ensures c !in Title(s)
  {
  }

  /** A prefix agrees with the text at each of its positions. */
  lemma PrefixChar(s: string, pat: string, j: nat)
    requires j < |s|
    ensures StartsWith(s, pat) && j < |pat| ==> pat[j] == s[j]
  {
    if StartsWith(s, pat) && j < |pat| {
      assert s[..|pat|][j] == s[j];
    }
  }

  /** Each piece replaced on its own. */
  function ReplaceEach(parts: seq<string>, pat: string, rep: string): (r: seq<string>)
    requires |pat| > 0
    ensures |r| == |parts|
    ensures forall k | 0 <= k < |parts| :: r[k] == Replace(parts[k], pat, rep)
  {
    seq(|parts|, k requires 0 <= k < |parts| => Replace(parts[k], pat, rep))
  }

  /** A replacement over pieces joined by a character outside the pattern works piece by piece. */
  lemma {:induction false} ReplaceJoin(parts: seq<string>, c: char, pat: string, rep: string)
    requires |pat| > 0 && c !in pat
    ensures Replace(Join(parts, [c]), pat, rep) == Join(ReplaceEach(parts, pat, rep), [c])
    decreases |parts|
  {
    var r := ReplaceEach(parts, pat, rep);
    if |parts| >= 2 {
      ReplaceJoin(parts[1..], c, pat, rep);
      ReplaceBreak(parts[0], c, Join(parts[1..], [c]), pat, rep);
      assert r[1..] == ReplaceEach(parts[1..], pat, rep);
    }
  }

  /** A character the pattern holds but the text lacks rules out every occurrence. */
  lemma MissingChar(s: string, pat: string, i: nat)
    requires i < |pat| && pat[i] !in s
    ensures !Contains(s, pat)
  {
    forall p | 0 <= p <= |s| ensures !StartsWith(s[p..], pat) {
      CharOfMatch(s, pat, p, i);
    }
  }

  /** An occurrence brings every character of the pattern into the text. */
  lemma CharOfMatch(s: string, pat: string, p: nat, i: nat)
    requires p <= |s| && i < |pat|
    ensures StartsWith(s[p..], pat) ==> pat[i] in s
  {
    if StartsWith(s[p..], pat) {
      assert s[p..][..|pat|][i] == s[p + i];
    }
  }

  /** Text without a line break holds no blank line. */
  lemma NoBlankLine(s: string)
    requires '\n' !in s
    ensures !Contains(s, "\n\n")
  {
    MissingChar(s, "\n\n", 0);
  }

  /** An occurrence in an infix is an occurrence in the whole. */
  lemma InfixContains(s: string, lo: nat, hi: nat, sub: string)
    requires lo <= hi <= |s|
    ensures Contains(s[lo..hi], sub) ==> Contains(s, sub)
  {
    var t := s[lo..hi];
    if Contains(t, sub) {
      var p :| 0 <= p <= |t| && StartsWith(t[p..], sub);
      assert t[p..] == s[lo + p..hi];
      assert s[lo + p..][..|sub|] == t[p..][..|sub|];
    }
  }

  /** Stripping cannot create an occurrence. */
  lemma StripContains(s: string, sub: string)
    ensures Contains(Strip(s), sub) ==> Contains(s, sub)
  {
    var l := LStrip(s);
    var r := RStrip(l);
    assert Strip(s) == r;
    InfixContains(l, 0, |r|, sub);
    InfixContains(s, |s| - |l|, |s|, sub);
  }

  /** Stripping cannot add a character. */
  lemma StripNoChar(s: string, c: char)
    requires c !in s
    ensures c !in Strip(s)
  {
    if c in Strip(s) {
      StripKeeps(s, c);
    }
  }

  // ----- case ------------------------------------------------------------

  predicate IsUpper(c: char) { 'A' <= c <= 'Z' }
  predicate IsLower(c: char) { 'a' <= c <= 'z' }
  predicate IsLetter(c: char) { IsUpper(c) || IsLower(c) }

  function LowerChar(c: char): char
  {
    if IsUpper(c) then (c as int + 32) as char else c
  }

  function UpperChar(c: char): char
  {
    if IsLower(c) then (c as int - 32) as char else c
  }

  /** `s.lower()` on the ASCII letters. */
  function Lower(s: string): (r: string)
    ensures |r| == |s|
    ensures forall i | 0 <= i < |s| :: r[i] == LowerChar(s[i])
  {
    seq(|s|, i requires 0 <= i < |s| => LowerChar(s[i]))
  }

  /** `s.title()`: every letter that follows a letter is lower-cased, every other letter upper-cased. */
  function Title(s: string): (r: string)
    ensures |r| == |s|
    ensures forall i | 0 <= i < |s| ::
      r[i] == (if i > 0 && IsLetter(s[i - 1]) then LowerChar(s[i]) else UpperChar(s[i]))
  {
    seq(|s|, i requires 0 <= i < |s| =>
      if i > 0 && IsLetter(s[i - 1]) then LowerChar(s[i]) else UpperChar(s[i]))
  }

  // ----- decimal numbers ---------------------------------------------------

  predicate IsDigit(c: char) { '0' <= c <= '9' }

  predicate AllDigits(s: string) { forall i | 0 <= i < |s| :: IsDigit(s[i]) }

  function DigitChar(d: nat): char
    requires d < 10
  {
    ('0' as int + d) as char
  }

  /** `str(n)`. */
  function NatToString(n: nat): (r: string)
    ensures r != [] && AllDigits(r)
    ensures |r| > 1 ==> r[0] != '0'
  {
    if n < 10 then [DigitChar(n)] else NatToString(n / 10) + [DigitChar(n % 10)]
  }

  /** `int(s)` for a string of ASCII digits. */
  function ParseNat(s: string): nat
    requires AllDigits(s)
  {
    if |s| == 0 then 0 else 10 * ParseNat(s[..|s| - 1]) + (s[|s| - 1] as int - '0' as int)
  }

  lemma {:induction false} ParseNatToString(n: nat)
    ensures ParseNat(NatToString(n)) == n
  {
    if n >= 10 {
      ParseNatToString(n / 10);
      var r := NatToString(n);
      assert r[..|r| - 1] == NatToString(n / 10);
    }
  }

  /** Left-pads with zeros to at least `width` characters (`f"{n:0{width}d}"`). */
  function ZeroPad(n: nat, width: nat): (r: string)
    ensures AllDigits(r)
    ensures |r| == if |NatToString(n)| < width then width else |NatToString(n)|
    ensures EndsWith(r, NatToString(n))
  {
    var d := NatToString(n);
    if |d| < width then seq(width - |d|, _ => '0') + d else d
  }

  /** A number below 100 has at most two digits, so two-digit padding never widens it further. */
  lemma TwoDigits(n: nat)
    requires n < 100
    ensures |ZeroPad(n, 2)| == 2
  {
    if n >= 10 {
      assert NatToString(n) == NatToString(n / 10) + [DigitChar(n % 10)];
    }
  }

  /** Leading zeros do not change the value a digit string denotes. */
  lemma {:induction false} ParseZeroPad(n: nat, width: nat)
    ensures ParseNat(ZeroPad(n, width)) == n
  {
    ParseNatToString(n);
    var d := NatToString(n);
    if |d| < width {
      var z := seq(width - |d|, _ => '0');
      assert ZeroPad(n, width) == z + d;
      ParseLeadingZeros(z, d);
    } else {
      assert ZeroPad(n, width) == d;
    }
  }

  lemma {:induction false} ParseLeadingZeros(z: string, d: string)
    requires forall i | 0 <= i < |z| :: z[i] == '0'
    requires AllDigits(d)
    ensures AllDigits(z + d) && ParseNat(z + d) == ParseNat(d)
    decreases |d|
  {
    if |d| == 0 {
      assert z + d == z;
      ParseZeros(z);
    } else {
      assert (z + d)[..|z + d| - 1] == z + d[..|d| - 1];
      ParseLeadingZeros(z, d[..|d| - 1]);
    }
  }

  lemma {:induction false} ParseZeros(z: string)
    requires forall i | 0 <= i < |z| :: z[i] == '0'
    ensures AllDigits(z) && ParseNat(z) == 0
    decreases |z|
  {
    if |z| > 0 { ParseZeros(z[..|z| - 1]); }
  }

  /** Replacing a character works piece by piece. */
  lemma {:induction false} ReplaceCharAppend(a: string, b: string, c: char, rep: string)
    ensures Replace(a + b, [c], rep) == Replace(a, [c], rep) + Replace(b, [c], rep)
    decreases |a|
  {
    if a != [] {
      ReplaceCharAppend(a[1..], b, c, rep);
      assert (a + b)[1..] == a[1..] + b;
      assert (a + b)[..1] == a[..1];
    } else {
      assert a + b == b;
    }
  }

  /** After a non-letter, title-casing starts afresh. */
  lemma TitleAfterNonLetter(a: string, b: string)
    requires a != [] && !IsLetter(a[|a| - 1])
    ensures Title(a + b) == Title(a) + Title(b)
  {
    forall i | 0 <= i < |a| + |b| ensures Title(a + b)[i] == (Title(a) + Title(b))[i] {
      TitleAt(a, b, i);
    }
  }

  lemma TitleAt(a: string, b: string, i: nat)
    requires a != [] && !IsLetter(a[|a| - 1]) && i < |a| + |b|
    ensures Title(a + b)[i] == (Title(a) + Title(b))[i]
  {
    var s := a + b;
    if i < |a| {
      assert s[i] == a[i];
      if i > 0 { assert s[i - 1] == a[i - 1]; }
    } else {
      var j := i - |a|;
      assert s[i] == b[j];
      assert s[i - 1] == if j > 0 then b[j - 1] else a[|a| - 1];
    }
  }

  /** Title-casing leaves digits alone. */
  lemma TitleDigits(d: string)
    requires AllDigits(d)
    ensures Title(d) == d
  {
    forall i | 0 <= i < |d| ensures Title(d)[i] == d[i] { assert IsDigit(d[i]); }
  }
}
