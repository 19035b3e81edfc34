/**
 The three JavaScript string operations the package-manager widget relies on,
 stated over `seq<char>`:
 - `String.prototype.replace` with a string pattern, which rewrites only the
   first occurrence of the pattern (`ReplaceFirst`), located as
   `String.prototype.indexOf` would locate it (`FirstIndexOf`);
 - `Array.prototype.join("\n")` (`JoinLines`) and its inverse,
   `String.prototype.split("\n")` (`SplitLines`).
 */
module JsString {

  datatype Option<+T> = None | Some(value: T)

  /** `pat` occurs in `s` starting at index `i`. */
  predicate OccursAt(s: string, pat: string, i: nat)
  {
    i + |pat| <= |s| && pat <= s[i..]
  }

  /** Index of the first occurrence of `pat` in `s`, as `s.indexOf(pat)` gives it
      (`None` where JavaScript answers -1). The empty pattern occurs at 0. */
  function FirstIndexOf(s: string, pat: string): (r: Option<nat>)
    ensures r.Some? ==> OccursAt(s, pat, r.value)
    ensures r.Some? ==> forall j: nat :: j < r.value ==> !OccursAt(s, pat, j)
    ensures r.None? ==> forall j: nat :: !OccursAt(s, pat, j)
    decreases |s|
  {
    if pat <= s then Some(0)
    else if |s| == 0 then None
    else
      var rest := FirstIndexOf(s[1..], pat);
      assert s[0..] == s;
      forall j: nat | 0 < j && OccursAt(s, pat, j) ensures OccursAt(s[1..], pat, j - 1) {
        assert s[1..][j - 1..] == s[j..];
      }
      forall j: nat | OccursAt(s[1..], pat, j) ensures OccursAt(s, pat, j + 1) {
        assert s[1..][j..] == s[j + 1..];
      }
      match rest
      case None => None
      case Some(i) => Some(i + 1)
  }

  /** `s.replace(pat, rep)` for a string pattern and a replacement without `$`
      patterns: the first occurrence of `pat`, if any, becomes `rep`. */
  function ReplaceFirst(s: string, pat: string, rep: string): (r: string)
    decreases |s|
  {
    if pat <= s then rep + s[|pat|..]
    else if |s| == 0 then s
    else [s[0]] + ReplaceFirst(s[1..], pat, rep)
  }

  /** A string in which `pat` does not occur is left unchanged by `ReplaceFirst`. */
  lemma {:induction false} ReplaceFirstNoMatch(s: string, pat: string, rep: string)
    requires FirstIndexOf(s, pat).None?
    ensures ReplaceFirst(s, pat, rep) == s
    decreases |s|
  {
    if |s| > 0 {
      var tail := s[1..];
      assert !(pat <= s);
      assert FirstIndexOf(tail, pat).None?;
      ReplaceFirstNoMatch(tail, pat, rep);
      assert [s[0]] + tail == s;
    }
  }

  /** `ReplaceFirst` rewrites exactly the occurrence `FirstIndexOf` finds: the
      text before it and the text after it are kept as they are. */
  lemma {:induction false} ReplaceFirstAtMatch(s: string, pat: string, rep: string, i: nat)
    requires FirstIndexOf(s, pat) == Some(i)
    ensures ReplaceFirst(s, pat, rep) == s[..i] + rep + s[i + |pat|..]
    decreases |s|
  {
    if pat <= s {
      assert i == 0;
    } else {
      assert |s| > 0 && i > 0;
      var tail := s[1..];
      assert FirstIndexOf(tail, pat) == Some(i - 1);
      ReplaceFirstAtMatch(tail, pat, rep, i - 1);
      assert ReplaceFirst(s, pat, rep) == [s[0]] + ReplaceFirst(tail, pat, rep);
      assert [s[0]] + tail[..i - 1] == s[..i];
      assert tail[i - 1 + |pat|..] == s[i + |pat|..];
    }
  }

  /** Only the first occurrence is rewritten: every later occurrence of `pat`
      (one that starts after the first has ended) is still there, shifted by
      the difference in length between `rep` and `pat`. */
  lemma LaterOccurrencesKept(s: string, pat: string, rep: string, i: nat, j: nat)
    requires FirstIndexOf(s, pat) == Some(i)
    requires i + |pat| <= j && OccursAt(s, pat, j)
    ensures OccursAt(ReplaceFirst(s, pat, rep), pat, j - |pat| + |rep|)
  {
    ReplaceFirstAtMatch(s, pat, rep, i);
    var r := ReplaceFirst(s, pat, rep);
    var k := j - |pat| + |rep|;
    assert r[k..] == s[j..] by {
      assert r == s[..i] + rep + s[i + |pat|..];
      assert |s[..i] + rep| + (j - (i + |pat|)) == k;
    }
  }

  /** `ReplaceFirst` introduces no character that is neither in `s` nor in `rep`. */
  lemma {:induction false} ReplaceFirstChars(s: string, pat: string, rep: string, c: char)
    requires c !in s && c !in rep
    ensures c !in ReplaceFirst(s, pat, rep)
    decreases |s|
  {
    if pat <= s {
    } else if |s| == 0 {
    } else {
      ReplaceFirstChars(s[1..], pat, rep, c);
    }
  }

  /** Every character of a prefix of `s` is a character of `s`. */
  lemma PrefixChars(pat: string, s: string, k: nat)
    requires k < |pat|
    ensures pat <= s ==> pat[k] in s
  {
  }

  /** A pattern with a character that `s` lacks cannot occur in `s`, and
      `ReplaceFirst` leaves `s` unchanged. */
  lemma {:induction false} ReplaceFirstMissingChar(s: string, pat: string, rep: string, k: nat)
    requires k < |pat| && pat[k] !in s
    ensures ReplaceFirst(s, pat, rep) == s
    decreases |s|
  {
    PrefixChars(pat, s, k);
    if |s| > 0 {
      ReplaceFirstMissingChar(s[1..], pat, rep, k);
      assert [s[0]] + s[1..] == s;
    }
  }

  /** A pattern with a character that `s` lacks is not found in `s`. */
  lemma NoMatchWithoutChar(s: string, pat: string, k: nat)
    requires k < |pat| && pat[k] !in s
    ensures FirstIndexOf(s, pat).None?
  {
  }

  /** A prefix in which the pattern's first character does not appear is passed
      over by `ReplaceFirst`: the rewrite happens after it, if at all. */
  lemma {:induction false} ReplaceFirstAfterPrefix(p: string, s: string, pat: string, rep: string)
    requires |pat| > 0 && pat[0] !in p
    ensures ReplaceFirst(p + s, pat, rep) == p + ReplaceFirst(s, pat, rep)
    decreases |p|
  {
    if |p| > 0 {
      assert (p + s)[0] == p[0];
      assert (p + s)[1..] == p[1..] + s;
      ReplaceFirstAfterPrefix(p[1..], s, pat, rep);
      assert [p[0]] + p[1..] == p;
    } else {
      assert p + s == s;
    }
  }

  /** `lines.join("\n")`: the empty list gives the empty string. */
  function JoinLines(lines: seq<string>): (r: string)
  {
    if |lines| == 0 then ""
    else if |lines| == 1 then lines[0]
    else lines[0] + "\n" + JoinLines(lines[1..])
  }

  /** `s.split("\n")`: always at least one piece, none containing a line break. */
  function SplitLines(s: string): (r: seq<string>)
    ensures |r| >= 1
    ensures forall k :: 0 <= k < |r| ==> '\n' !in r[k]
    decreases |s|
  {
    if |s| == 0 then [""]
    else if s[0] == '\n' then [""] + SplitLines(s[1..])
    else
      var rest := SplitLines(s[1..]);
      [[s[0]] + rest[0]] + rest[1..]
  }

  /** A string without a line break is a single line. */
  lemma {:induction false} SplitSingleLine(a: string)
    requires '\n' !in a
    ensures SplitLines(a) == [a]
    decreases |a|
  {
    if |a| > 0 {
      SplitSingleLine(a[1..]);
      assert [a[0]] + a[1..] == a;
    }
  }

  /** Splitting at the first line break yields the text before it, then the
      pieces of the rest. */
  lemma {:induction false} SplitAtFirstBreak(a: string, t: string)
    requires '\n' !in a
    ensures SplitLines(a + "\n" + t) == [a] + SplitLines(t)
    decreases |a|
  {
    if |a| == 0 {
      assert a + "\n" + t == ['\n'] + t;
      assert (['\n'] + t)[1..] == t;
    } else {
      assert (a + "\n" + t)[1..] == a[1..] + "\n" + t;
      SplitAtFirstBreak(a[1..], t);
      assert [a[0]] + a[1..] == a;
    }
  }

  /** Splitting undoes joining, for a non-empty list of lines that contain no
      line break themselves; in particular the joined text has one line per
      element, in order. */
  lemma {:induction false} SplitJoinLines(lines: seq<string>)
    requires |lines| > 0
    requires forall k :: 0 <= k < |lines| ==> '\n' !in lines[k]
    ensures SplitLines(JoinLines(lines)) == lines
    decreases |lines|
  {
    if |lines| == 1 {
      SplitSingleLine(lines[0]);
    } else {
      SplitAtFirstBreak(lines[0], JoinLines(lines[1..]));
      SplitJoinLines(lines[1..]);
      assert [lines[0]] + lines[1..] == lines;
    }
  }
}
