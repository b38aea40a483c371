/** String primitives with the semantics of the two QString calls the window
    relies on: `contains` (case-sensitive substring search) and `replace`
    (every non-overlapping occurrence, scanning left to right, without
    rescanning the inserted text). */
module Text {

  /** `pat` occurs in `s` starting at index `i`. */
  predicate OccursAt(s: string, pat: string, i: int)
  {
    0 <= i && i + |pat| <= |s| && s[i..i + |pat|] == pat
  }

  /** Substring search, as QString::contains does it. `ContainsIff`
      characterises it by the existence of an occurrence. */
  function Contains(s: string, pat: string): (found: bool)
    ensures found ==> |pat| <= |s|
    ensures pat == [] ==> found
    decreases |s|
  {
    if |s| < |pat| then false
    else if pat <= s then true
    else Contains(s[1..], pat)
  }

  /** Replace every occurrence of `pat` by `rep`, leftmost first, resuming the
      scan right after each replaced occurrence (QString::replace). */
  function ReplaceAll(s: string, pat: string, rep: string): (r: string)
    requires pat != []
    ensures rep == pat ==> r == s
    ensures |rep| >= |pat| ==> |r| >= |s|
    decreases |s|
  {
    if |s| < |pat| then s
    else if pat <= s then
      assert s == s[..|pat|] + s[|pat|..];
      rep + ReplaceAll(s[|pat|..], pat, rep)
    else
      assert s == [s[0]] + s[1..];
      [s[0]] + ReplaceAll(s[1..], pat, rep)
  }

  /** The segments glued back together with `sep` between neighbours. */
  function Join(segs: seq<string>, sep: string): string
    requires |segs| > 0
  {
    if |segs| == 1 then segs[0] else segs[0] + sep + Join(segs[1..], sep)
  }

  /** `segs` cuts `s` at the occurrences of `pat` that a left-to-right scan
      finds: no occurrence starts inside a segment (for a segment followed by
      `pat`, an occurrence starting in it would overlap into the following
      `pat`), and the last segment contains no occurrence at all. The number
      of occurrences found is |segs| - 1. */
  predicate IsLeftmostSplit(s: string, pat: string, segs: seq<string>)
    requires pat != []
  {
    && |segs| > 0
    && Join(segs, pat) == s
    && (forall i :: 0 <= i < |segs| - 1 ==> !Contains(segs[i] + pat[..|pat| - 1], pat))
    && !Contains(segs[|segs| - 1], pat)
  }

  /** The cut of `s` that a left-to-right scan for `pat` produces. */
  function Split(s: string, pat: string): (segs: seq<string>)
    requires pat != []
    ensures |segs| > 0
    decreases |s|
  {
    if |s| < |pat| then [s]
    else if pat <= s then [[]] + Split(s[|pat|..], pat)
    else
      var t := Split(s[1..], pat);
      [[s[0]] + t[0]] + t[1..]
  }

  /** The recursive search agrees with the existence of an occurrence. */
  lemma {:induction false} ContainsIff(s: string, pat: string)
    ensures Contains(s, pat) <==> exists i :: OccursAt(s, pat, i)
    decreases |s|
  {
    if |s| < |pat| {
    } else if pat <= s {
      assert s[0..|pat|] == pat;
      assert OccursAt(s, pat, 0);
    } else {
      ContainsIff(s[1..], pat);
      forall j | OccursAt(s[1..], pat, j) ensures OccursAt(s, pat, j + 1) {
        assert |s[1..]| == |s| - 1;
        assert s[1..][j..j + |pat|] == s[j + 1..j + 1 + |pat|];
      }
      forall i | OccursAt(s, pat, i) ensures OccursAt(s[1..], pat, i - 1) {
        assert s[1..][i - 1..i - 1 + |pat|] == s[i..i + |pat|];
      }
    }
  }

  /** An occurrence at a known index makes `Contains` true. */
  lemma ContainsAt(s: string, pat: string, i: int)
    requires OccursAt(s, pat, i)
    ensures Contains(s, pat)
  {
    ContainsIff(s, pat);
  }

  /** An occurrence in either part is an occurrence in the concatenation. */
  lemma ContainsConcat(a: string, b: string, pat: string)
    ensures Contains(a, pat) || Contains(b, pat) ==> Contains(a + b, pat)
  {
    ContainsIff(a, pat);
    ContainsIff(b, pat);
    var ab := a + b;
    if Contains(a, pat) {
      var i :| OccursAt(a, pat, i);
      assert ab[i..i + |pat|] == a[i..i + |pat|];
      ContainsAt(ab, pat, i);
    } else if Contains(b, pat) {
      var j :| OccursAt(b, pat, j);
      assert ab[|a| + j..|a| + j + |pat|] == b[j..j + |pat|];
      ContainsAt(ab, pat, |a| + j);
    }
  }

  /** An occurrence in a concatenation that does not cross the boundary lies
      in one of the parts. */
  lemma OccursInPart(a: string, b: string, pat: string, i: int)
    requires OccursAt(a + b, pat, i)
    requires i + |pat| <= |a| || |a| <= i
    ensures Contains(a, pat) || Contains(b, pat)
  {
    var ab := a + b;
    if i + |pat| <= |a| {
      assert ab[i..i + |pat|] == a[i..i + |pat|];
      ContainsAt(a, pat, i);
    } else {
      assert ab[i..i + |pat|] == b[i - |a|..i - |a| + |pat|];
      ContainsAt(b, pat, i - |a|);
    }
  }

  /** `pat` occurs right after `y` in `y + pat + z`. */
  lemma OccursBetween(y: string, pat: string, z: string)
    ensures OccursAt(y + pat + z, pat, |y|)
  {
    assert (y + pat + z)[|y|..|y| + |pat|] == pat;
  }

  /** Putting text in front moves an occurrence by that text's length. */
  lemma OccursShift(a: string, x: string, pat: string, i: int)
    requires OccursAt(x, pat, i)
    ensures OccursAt(a + x, pat, |a| + i)
  {
    assert (a + x)[|a| + i..|a| + i + |pat|] == x[i..i + |pat|];
  }

  /** The first separator of a join sits right after the first segment. */
  lemma JoinSeparatorOccurs(segs: seq<string>, sep: string)
    requires |segs| > 1
    ensures OccursAt(Join(segs, sep), sep, |segs[0]|)
  {
    OccursBetween(segs[0], sep, Join(segs[1..], sep));
  }

  /** Where `p + q` occurs, `p` occurs. */
  lemma OccursPrefix(s: string, p: string, q: string, i: int)
    requires OccursAt(s, p + q, i)
    ensures OccursAt(s, p, i)
  {
    assert s[i..i + |p|] == s[i..i + |p + q|][..|p|];
  }

  /** A string with no occurrence of `pat` is left as it is. */
  lemma {:induction false} ReplaceAllNoMatch(s: string, pat: string, rep: string)
    requires pat != []
    ensures !Contains(s, pat) ==> ReplaceAll(s, pat, rep) == s
    decreases |s|
  {
    if |s| >= |pat| {
      ReplaceAllNoMatch(s[1..], pat, rep);
      assert s == [s[0]] + s[1..];
    }
  }

  /** In a segment where no occurrence starts, the scan finds none at the
      segment's first character either, and the rest of the segment is again
      such a segment. */
  lemma SegmentStep(seg: string, pat: string, rest: string)
    requires pat != [] && seg != []
    requires !Contains(seg + pat[..|pat| - 1], pat)
    ensures !(pat <= seg + pat + rest)
    ensures !Contains(seg[1..] + pat[..|pat| - 1], pat)
  {
    var n := |pat|;
    var s := seg + pat + rest;
    var w := seg + pat[..n - 1];
    assert s[..n] == w[..n];
    assert w[1..] == seg[1..] + pat[..n - 1];
  }

  /** The scan at an occurrence: it is replaced and the scan resumes after it. */
  lemma ReplaceAllAtMatch(pat: string, rest: string, rep: string)
    requires pat != []
    ensures ReplaceAll(pat + rest, pat, rep) == rep + ReplaceAll(rest, pat, rep)
  {
    assert (pat + rest)[|pat|..] == rest;
  }

  /** The scan elsewhere: one character is copied. */
  lemma ReplaceAllAtOther(s: string, pat: string, rep: string)
    requires pat != [] && |s| >= |pat| && !(pat <= s)
    ensures ReplaceAll(s, pat, rep) == [s[0]] + ReplaceAll(s[1..], pat, rep)
  {
  }

  /** The scan copies a segment in which no occurrence starts, then replaces
      the `pat` that follows it. */
  lemma {:induction false} ReplaceAllSegment(seg: string, pat: string, rest: string, rep: string)
    requires pat != []
    requires !Contains(seg + pat[..|pat| - 1], pat)
    ensures ReplaceAll(seg + pat + rest, pat, rep) == seg + rep + ReplaceAll(rest, pat, rep)
    decreases |seg|
  {
    if seg == [] {
      assert seg + pat + rest == pat + rest;
      ReplaceAllAtMatch(pat, rest, rep);
    } else {
      var s := seg + pat + rest;
      SegmentStep(seg, pat, rest);
      ReplaceAllAtOther(s, pat, rep);
      assert s[1..] == seg[1..] + pat + rest;
      ReplaceAllSegment(seg[1..], pat, rest, rep);
      assert [seg[0]] + seg[1..] == seg;
    }
  }

  /** QString::replace, specified without reference to its scan: on any
      leftmost cut of `s`, the result is the same segments joined by `rep`.
      So the text between occurrences is kept, in order, and every
      occurrence the scan finds is replaced. */
  lemma {:induction false} ReplaceAllSpec(s: string, pat: string, rep: string, segs: seq<string>)
    requires pat != []
    requires IsLeftmostSplit(s, pat, segs)
    ensures ReplaceAll(s, pat, rep) == Join(segs, rep)
    decreases |segs|
  {
    if |segs| == 1 {
      ReplaceAllNoMatch(s, pat, rep);
    } else {
      var rest := Join(segs[1..], pat);
      assert s == segs[0] + pat + rest;
      ReplaceAllSegment(segs[0], pat, rest, rep);
      assert IsLeftmostSplit(rest, pat, segs[1..]) by {
        forall i | 0 <= i < |segs[1..]| - 1
          ensures !Contains(segs[1..][i] + pat[..|pat| - 1], pat)
        {
          assert segs[1..][i] == segs[i + 1];
        }
      }
      ReplaceAllSpec(rest, pat, rep, segs[1..]);
    }
  }

  /** Gluing a first segment onto a join. */
  lemma JoinCons(x: string, segs: seq<string>, sep: string)
    requires |segs| > 0
    ensures Join([x] + segs, sep) == x + sep + Join(segs, sep)
  {
    assert ([x] + segs)[1..] == segs;
  }

  /** A leftmost cut of the text after a leading `pat` extends to the whole
      text with an empty first segment. */
  lemma LeftmostAfterMatch(s: string, pat: string, t: seq<string>)
    requires pat != [] && pat <= s
    requires IsLeftmostSplit(s[|pat|..], pat, t)
    ensures IsLeftmostSplit(s, pat, [[]] + t)
  {
    var n := |pat|;
    var segs := [[]] + t;
    JoinCons([], t, pat);
    assert s == pat + s[n..];
    assert !Contains(pat[..n - 1], pat);
    forall i | 0 <= i < |segs| - 1 ensures !Contains(segs[i] + pat[..n - 1], pat) {
      if i > 0 {
        assert segs[i] == t[i - 1];
      } else {
        assert segs[i] + pat[..n - 1] == pat[..n - 1];
      }
    }
    assert segs[|segs| - 1] == t[|t| - 1];
  }

  /** When no occurrence starts at the front, the first character joins the
      first segment of a leftmost cut of the rest; here that segment is the
      whole rest. */
  lemma LeftmostAfterSkipLast(s: string, pat: string, t: seq<string>)
    requires pat != [] && |s| >= |pat| && !(pat <= s)
    requires IsLeftmostSplit(s[1..], pat, t) && |t| == 1
    ensures IsLeftmostSplit(s, pat, [[s[0]] + t[0]] + t[1..])
  {
    var head := [s[0]] + t[0];
    assert [head] + t[1..] == [head];
    assert head == [s[0]] + s[1..] == s;
    assert Contains(s, pat) == Contains(s[1..], pat);
  }

  /** As above, with at least one occurrence in the rest. */
  lemma LeftmostAfterSkipMore(s: string, pat: string, t: seq<string>)
    requires pat != [] && |s| >= |pat| && !(pat <= s)
    requires IsLeftmostSplit(s[1..], pat, t) && |t| > 1
    ensures IsLeftmostSplit(s, pat, [[s[0]] + t[0]] + t[1..])
  {
    var n := |pat|;
    var head := [s[0]] + t[0];
    var segs := [head] + t[1..];
    JoinCons(head, t[1..], pat);
    assert Join(t, pat) == t[0] + pat + Join(t[1..], pat);
    assert Join(segs, pat) == [s[0]] + Join(t, pat);
    assert [s[0]] + s[1..] == s;
    var w := head + pat[..n - 1];
    assert !Contains(w, pat) by {
      assert s == head + pat + Join(t[1..], pat);
      assert w[..n] == s[..n];
      assert w[1..] == t[0] + pat[..n - 1];
    }
    forall i | 0 <= i < |segs| - 1 ensures !Contains(segs[i] + pat[..n - 1], pat) {
      if i > 0 {
        assert segs[i] == t[i];
      }
    }
    assert segs[|segs| - 1] == t[|t| - 1];
  }

  /** Split produces a leftmost cut of its input. */
  lemma {:induction false} SplitIsLeftmost(s: string, pat: string)
    requires pat != []
    ensures IsLeftmostSplit(s, pat, Split(s, pat))
    decreases |s|
  {
    if |s| < |pat| {
      assert !Contains(s, pat);
    } else if pat <= s {
      SplitIsLeftmost(s[|pat|..], pat);
      LeftmostAfterMatch(s, pat, Split(s[|pat|..], pat));
    } else {
      var t := Split(s[1..], pat);
      SplitIsLeftmost(s[1..], pat);
      if |t| == 1 {
        LeftmostAfterSkipLast(s, pat, t);
      } else {
        LeftmostAfterSkipMore(s, pat, t);
      }
    }
  }

  /** QString::replace equals the split of its input, rejoined with `rep`. */
  lemma ReplaceAllBySplit(s: string, pat: string, rep: string)
    requires pat != []
    ensures ReplaceAll(s, pat, rep) == Join(Split(s, pat), rep)
    ensures Join(Split(s, pat), pat) == s
  {
    SplitIsLeftmost(s, pat);
    ReplaceAllSpec(s, pat, rep, Split(s, pat));
  }

  /** Changing the separator changes the length by its difference once per gap. */
  lemma {:induction false} JoinLength(segs: seq<string>, a: string, b: string)
    requires |segs| > 0
    ensures |Join(segs, a)| == |Join(segs, b)| + (|segs| - 1) * (|a| - |b|)
    decreases |segs|
  {
    if |segs| > 1 {
      JoinLength(segs[1..], a, b);
      assert (|segs| - 1) * (|a| - |b|) == (|segs| - 2) * (|a| - |b|) + (|a| - |b|);
    }
  }

  /** Length accounting of QString::replace: every occurrence the scan finds
      grows the string by |rep| - |pat|. */
  lemma ReplaceAllLength(s: string, pat: string, rep: string, segs: seq<string>)
    requires pat != []
    requires IsLeftmostSplit(s, pat, segs)
    ensures |ReplaceAll(s, pat, rep)| == |s| + (|segs| - 1) * (|rep| - |pat|)
  {
    ReplaceAllSpec(s, pat, rep, segs);
    JoinLength(segs, rep, pat);
  }

  /** The number of occurrences a scan finds does not depend on which
      leftmost cut is used to count them. */
  lemma LeftmostSplitCount(s: string, pat: string, a: seq<string>, b: seq<string>)
    requires pat != []
    requires IsLeftmostSplit(s, pat, a) && IsLeftmostSplit(s, pat, b)
    ensures |a| == |b|
  {
    var rep := pat + "x";
    assert |rep| - |pat| == 1;
    ReplaceAllLength(s, pat, rep, a);
    ReplaceAllLength(s, pat, rep, b);
    assert (|a| - 1) * 1 == |a| - 1 && (|b| - 1) * 1 == |b| - 1;
  }

  /** A leftmost cut has more than one segment exactly when `pat` occurs. */
  lemma LeftmostSplitOccurs(s: string, pat: string, segs: seq<string>)
    requires pat != []
    requires IsLeftmostSplit(s, pat, segs)
    ensures |segs| > 1 <==> Contains(s, pat)
  {
    if |segs| > 1 {
      var rest := Join(segs[1..], pat);
      assert s == segs[0] + pat + rest;
      assert s[|segs[0]|..|segs[0]| + |pat|] == pat;
      ContainsAt(s, pat, |segs[0]|);
    }
  }
}
