/** The string operations file_operations.py relies on: `str.count`,
    `str.replace`, the `in` substring test, the lines a text file yields, and
    Python's ordering of `str` values. */
module Text {

  /** `sub in s`. */
  predicate Contains(s: string, sub: string)
    decreases |s|
  {
    sub <= s || (|s| > 0 && Contains(s[1..], sub))
  }

  /** Non-overlapping occurrences of a non-empty pattern, scanning left to right. */
  function CountFrom(s: string, pat: string): nat
    requires pat != []
    decreases |s|
  {
    if |s| < |pat| then 0
    else if pat <= s then 1 + CountFrom(s[|pat|..], pat)
    else CountFrom(s[1..], pat)
  }

  /** `s.count(pat)`; the empty pattern is counted once per gap, `|s| + 1` times. */
  function Count(s: string, pat: string): nat {
    if pat == [] then |s| + 1 else CountFrom(s, pat)
  }

  function ReplaceFrom(s: string, pat: string, rep: string): string
    requires pat != []
    decreases |s|
  {
    if |s| < |pat| then s
    else if pat <= s then rep + ReplaceFrom(s[|pat|..], pat, rep)
    else [s[0]] + ReplaceFrom(s[1..], pat, rep)
  }

  /** `rep` before every character of `s` and once more at its end. */
  function Interleave(s: string, rep: string): string
    decreases |s|
  {
    if s == [] then rep else rep + [s[0]] + Interleave(s[1..], rep)
  }

  /** `s.replace(pat, rep)`: every occurrence `Count` counts is replaced. */
  function Replace(s: string, pat: string, rep: string): string {
    if pat == [] then Interleave(s, rep) else ReplaceFrom(s, pat, rep)
  }

  lemma {:induction false} ContainsFits(s: string, sub: string)
    requires Contains(s, sub)
    ensures |sub| <= |s|
    decreases |s|
  {
    if !(sub <= s) {
      ContainsFits(s[1..], sub);
    }
  }

  /** No occurrence is counted exactly when the pattern does not occur. */
  lemma {:induction false} CountZeroIffAbsent(s: string, pat: string)
    ensures Count(s, pat) == 0 <==> !Contains(s, pat)
    decreases |s|
  {
    if pat != [] {
      if |s| < |pat| {
        if Contains(s, pat) { ContainsFits(s, pat); }
      } else if !(pat <= s) {
        CountZeroIffAbsent(s[1..], pat);
      }
    }
  }

  lemma MulSucc(c: int, d: int)
    ensures (c + 1) * d == c * d + d
  {
  }

  lemma {:induction false} ReplaceFromLength(s: string, pat: string, rep: string)
    requires pat != []
    ensures |ReplaceFrom(s, pat, rep)| == |s| + CountFrom(s, pat) * (|rep| - |pat|)
    decreases |s|
  {
    if |s| >= |pat| {
      if pat <= s {
        var t := s[|pat|..];
        ReplaceFromLength(t, pat, rep);
        assert |ReplaceFrom(s, pat, rep)| == |rep| + |ReplaceFrom(t, pat, rep)|;
        assert CountFrom(s, pat) == CountFrom(t, pat) + 1 && |t| == |s| - |pat|;
        MulSucc(CountFrom(t, pat), |rep| - |pat|);
      } else {
        ReplaceFromLength(s[1..], pat, rep);
        assert |ReplaceFrom(s, pat, rep)| == 1 + |ReplaceFrom(s[1..], pat, rep)|;
        assert CountFrom(s, pat) == CountFrom(s[1..], pat);
      }
    }
  }

  lemma {:induction false} InterleaveLength(s: string, rep: string)
    ensures |Interleave(s, rep)| == |s| + (|s| + 1) * |rep|
    decreases |s|
  {
    if s != [] {
      InterleaveLength(s[1..], rep);
    }
  }

  /** Every counted occurrence grows or shrinks the text by the difference in length. */
  lemma ReplaceLength(s: string, pat: string, rep: string)
    ensures |Replace(s, pat, rep)| == |s| + Count(s, pat) * (|rep| - |pat|)
  {
    if pat == [] { InterleaveLength(s, rep); } else { ReplaceFromLength(s, pat, rep); }
  }

  lemma {:induction false} ReplaceFromAbsent(s: string, pat: string, rep: string)
    requires pat != [] && CountFrom(s, pat) == 0
    ensures ReplaceFrom(s, pat, rep) == s
    decreases |s|
  {
    if |s| >= |pat| {
      ReplaceFromAbsent(s[1..], pat, rep);
      assert [s[0]] + s[1..] == s;
    }
  }

  /** With nothing counted, replacing changes nothing. */
  lemma ReplaceWhenAbsent(s: string, pat: string, rep: string)
    requires Count(s, pat) == 0
    ensures Replace(s, pat, rep) == s
  {
    ReplaceFromAbsent(s, pat, rep);
  }

  lemma {:induction false} ReplaceFromSelf(s: string, pat: string)
    requires pat != []
    ensures ReplaceFrom(s, pat, pat) == s
    decreases |s|
  {
    if |s| >= |pat| {
      if pat <= s {
        ReplaceFromSelf(s[|pat|..], pat);
        assert pat + s[|pat|..] == s;
      } else {
        ReplaceFromSelf(s[1..], pat);
        assert [s[0]] + s[1..] == s;
      }
    }
  }

  lemma {:induction false} InterleaveEmpty(s: string)
    ensures Interleave(s, "") == s
    decreases |s|
  {
    if s != [] {
      InterleaveEmpty(s[1..]);
      assert "" + [s[0]] + s[1..] == s;
    }
  }

  /** Replacing a pattern by itself gives back the text. */
  lemma ReplaceBySelf(s: string, pat: string)
    ensures Replace(s, pat, pat) == s
  {
    if pat == [] { InterleaveEmpty(s); } else { ReplaceFromSelf(s, pat); }
  }

  /** The index of the first newline, `|t|` when there is none. */
  function FirstNewline(t: string): (k: nat)
    ensures k <= |t| && (k < |t| ==> t[k] == '\n')
    ensures forall i :: 0 <= i < k ==> t[i] != '\n'
    decreases |t|
  {
    if t == [] then 0 else if t[0] == '\n' then 0 else 1 + FirstNewline(t[1..])
  }

  /** The lines that iterating over a text file yields: each ends with its
      newline, except a last one the text does not end with a newline. */
  function Lines(t: string): seq<string>
    decreases |t|
  {
    if t == [] then []
    else
      var k := FirstNewline(t);
      if k == |t| then [t] else [t[..k + 1]] + Lines(t[k + 1..])
  }

  function Concat(ls: seq<string>): string {
    if ls == [] then "" else ls[0] + Concat(ls[1..])
  }

  lemma {:induction false} CountNewlinesPlain(t: string)
    requires forall i :: 0 <= i < |t| ==> t[i] != '\n'
    ensures Count(t, "\n") == 0
    decreases |t|
  {
    if t != [] {
      assert !("\n" <= t) by { assert t[0] != '\n'; }
      CountNewlinesPlain(t[1..]);
    }
  }

  lemma {:induction false} CountNewlinesAfterPlain(t: string, k: nat)
    requires k < |t| && t[k] == '\n'
    requires forall i :: 0 <= i < k ==> t[i] != '\n'
    ensures Count(t, "\n") == 1 + Count(t[k + 1..], "\n")
    decreases k
  {
    if k == 0 {
      assert "\n" <= t by { assert t[..1] == "\n"; }
    } else {
      assert !("\n" <= t) by { assert t[0] != '\n'; }
      CountNewlinesAfterPlain(t[1..], k - 1);
      assert t[1..][k..] == t[k + 1..];
    }
  }

  /** The lines put back together are the text, and there is one per newline
      plus one for an unterminated last line. */
  lemma LinesOfText(t: string)
    ensures Concat(Lines(t)) == t
    ensures |Lines(t)| == Count(t, "\n") + (if |t| > 0 && t[|t| - 1] != '\n' then 1 else 0)
  {
    LinesConcat(t);
    LinesCount(t);
  }

  lemma {:induction false} LinesConcat(t: string)
    ensures Concat(Lines(t)) == t
    decreases |t|
  {
    if t != [] {
      var k := FirstNewline(t);
      if k == |t| {
        assert Concat([t]) == t + "";
      } else {
        LinesConcat(t[k + 1..]);
        assert t[..k + 1] + t[k + 1..] == t;
      }
    }
  }

  lemma {:induction false} LinesCount(t: string)
    ensures |Lines(t)| == Count(t, "\n") + (if |t| > 0 && t[|t| - 1] != '\n' then 1 else 0)
    decreases |t|
  {
    if t != [] {
      var k := FirstNewline(t);
      if k == |t| {
        CountNewlinesPlain(t);
      } else {
        LinesCount(t[k + 1..]);
        CountNewlinesAfterPlain(t, k);
        if k + 1 == |t| {
          assert t[k + 1..] == [];
        } else {
          assert t[k + 1..][|t[k + 1..]| - 1] == t[|t| - 1];
        }
      }
    }
  }

  /** Python's `<` on `str`: code-point order, a proper prefix first. */
  predicate StrLess(a: string, b: string)
    decreases |a|
  {
    |b| > 0 && (|a| == 0 || a[0] < b[0] || (a[0] == b[0] && StrLess(a[1..], b[1..])))
  }

  lemma {:induction false} StrLessIrreflexive(a: string)
    ensures !StrLess(a, a)
    decreases |a|
  {
    if |a| > 0 { StrLessIrreflexive(a[1..]); }
  }

  lemma {:induction false} StrLessTransitive(a: string, b: string, c: string)
    requires StrLess(a, b) && StrLess(b, c)
    ensures StrLess(a, c)
    decreases |a|
  {
    if |a| > 0 && a[0] == b[0] && b[0] == c[0] {
      StrLessTransitive(a[1..], b[1..], c[1..]);
    }
  }

  /** Two different strings are always ordered one way or the other. */
  lemma {:induction false} StrLessTotal(a: string, b: string)
    requires a != b
    ensures StrLess(a, b) || StrLess(b, a)
    decreases |a|
  {
    if |a| > 0 && |b| > 0 && a[0] == b[0] {
      assert a == [a[0]] + a[1..] && b == [b[0]] + b[1..];
      StrLessTotal(a[1..], b[1..]);
    }
  }

  /** Counting newlines one character at a time. */
  lemma {:induction false} CountNewlinesSnoc(s: string, c: char)
    ensures Count(s + [c], "\n") == Count(s, "\n") + (if c == '\n' then 1 else 0)
    decreases |s|
  {
    if s == [] {
      var nl := "\n";
      assert |nl| == 1 && nl[0] == '\n';
      assert [c][1..] == [] && [c][|nl|..] == [];
      assert (nl <= [c]) == (c == '\n');
    } else {
      assert (s + [c])[1..] == s[1..] + [c];
      assert ("\n" <= s + [c]) == ("\n" <= s) by {
        assert (s + [c])[0] == s[0];
      }
      CountNewlinesSnoc(s[1..], c);
    }
  }
}
