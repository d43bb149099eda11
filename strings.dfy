/** The string operations of Go's `strings` package that the supervisor relies
    on, written as functions: substring search (`strings.Contains`), splitting
    on a one-character separator (`strings.Split(s, "\n")`), and removal of
    every occurrence of a pattern (`strings.Replace(s, pat, "", -1)`), with
    the lemmas that connect them to their partners. */
module Strings {

  /** `pat` occurs in `s` starting at index `i`. */
  predicate OccursAt(s: string, pat: string, i: nat)
  {
    i + |pat| <= |s| && s[i..i + |pat|] == pat
  }

  /** strings.Contains: scans `s` left to right for `pat`; the empty
      pattern is contained in every string, the empty string included. */
  predicate Contains(s: string, pat: string)
    ensures Contains(s, pat) ==> |pat| <= |s|
    ensures |pat| == 0 ==> Contains(s, pat)
  {
    |pat| <= |s| && (s[..|pat|] == pat || (0 < |s| && Contains(s[1..], pat)))
  }

  /** Contains agrees with the positional definition of an occurrence. */
  lemma {:induction false} ContainsIff(s: string, pat: string)
    ensures Contains(s, pat) <==> exists i: nat :: OccursAt(s, pat, i)
  {
    if Contains(s, pat) {
      if s[..|pat|] == pat {
        assert OccursAt(s, pat, 0);
      } else {
        ContainsIff(s[1..], pat);
        var i: nat :| OccursAt(s[1..], pat, i);
        assert s[1..][i..i + |pat|] == s[i + 1..i + 1 + |pat|];
        assert OccursAt(s, pat, i + 1);
      }
    } else {
      forall i: nat | OccursAt(s, pat, i)
        ensures false
      {
        OccursShift(s, pat, i);
      }
    }
  }

  /** An occurrence at `i` makes `s` contain `pat`. */
  lemma {:induction false} OccursShift(s: string, pat: string, i: nat)
    requires OccursAt(s, pat, i)
    ensures Contains(s, pat)
    decreases i
  {
    if i > 0 && s[..|pat|] != pat {
      assert s[1..][i - 1..i - 1 + |pat|] == s[i..i + |pat|];
      OccursShift(s[1..], pat, i - 1);
    }
  }

  /** Appending output never hides an occurrence already seen. */
  lemma {:induction false} ContainsAppend(a: string, b: string, pat: string)
    requires Contains(a, pat)
    ensures Contains(a + b, pat)
  {
    ContainsIff(a, pat);
    var i: nat :| OccursAt(a, pat, i);
    assert (a + b)[i..i + |pat|] == a[i..i + |pat|];
    OccursShift(a + b, pat, i);
  }

  /** When the accumulated text `a` did not contain `pat` and `a + b` does, the
      occurrence ends inside `b`: it lies in `b` or straddles the boundary, so
      only a scan of the whole accumulation is guaranteed to see it. */
  lemma NewOccurrenceEndsInAppended(a: string, b: string, pat: string)
    requires !Contains(a, pat) && Contains(a + b, pat)
    ensures exists i: nat :: OccursAt(a + b, pat, i) && |a| < i + |pat|
  {
    ContainsIff(a + b, pat);
    var i: nat :| OccursAt(a + b, pat, i);
    if i + |pat| <= |a| {
      assert a[i..i + |pat|] == (a + b)[i..i + |pat|];
      OccursShift(a, pat, i);
    }
  }

  /** strings.Replace(s, pat, "", -1): every non-overlapping occurrence of
      `pat`, found left to right, is removed in a single pass. The result is
      never longer, and it equals the input exactly when nothing was found. */
  function RemoveAll(s: string, pat: string): (r: string)
    requires |pat| > 0
    ensures |r| <= |s|
    ensures r == s <==> !Contains(s, pat)
    decreases |s|
  {
    if |s| < |pat| then s
    else if s[..|pat|] == pat then RemoveAll(s[|pat|..], pat)
    else [s[0]] + RemoveAll(s[1..], pat)
  }

  /** An occurrence of `pat` after a stretch `a` in which no occurrence starts
      is removed, and the stretch is kept: the removal is not limited to a
      prefix of the line. */
  lemma {:induction false} RemoveAllAfter(a: string, b: string, pat: string)
    requires |pat| > 0
    requires !Contains(a + pat[..|pat| - 1], pat)
    ensures RemoveAll(a + pat + b, pat) == a + RemoveAll(b, pat)
    decreases |a|
  {
    var s := a + pat + b;
    if a == [] {
      assert s == pat + b;
      assert s[..|pat|] == pat;
      assert s[|pat|..] == b;
    } else {
      var t := a + pat[..|pat| - 1];
      assert t[..|pat|] == s[..|pat|];
      assert t[..|pat|] != pat && !Contains(t[1..], pat);
      assert t[1..] == a[1..] + pat[..|pat| - 1];
      assert s[1..] == a[1..] + pat + b;
      assert RemoveAll(s, pat) == [s[0]] + RemoveAll(s[1..], pat);
      RemoveAllAfter(a[1..], b, pat);
      assert [a[0]] + a[1..] == a;
    }
  }

  /** Number of occurrences of the character `c` in `s`. */
  function Count(s: string, c: char): (n: nat)
  {
    if s == [] then 0 else (if s[0] == c then 1 else 0) + Count(s[1..], c)
  }

  /** strings.Split(s, [sep]): the pieces between separators, always at least
      one; a leading, trailing or doubled separator yields an empty piece. */
  function Split(s: string, sep: char): (r: seq<string>)
    ensures |r| >= 1
  {
    if |s| == 0 then [""]
    else if s[0] == sep then [""] + Split(s[1..], sep)
    else var t := Split(s[1..], sep); [[s[0]] + t[0]] + t[1..]
  }

  /** strings.Join(parts, [sep]). */
  function Join(parts: seq<string>, sep: char): (s: string)
  {
    if parts == [] then ""
    else if |parts| == 1 then parts[0]
    else parts[0] + [sep] + Join(parts[1..], sep)
  }

  /** Split yields one piece more than there are separators. */
  lemma {:induction false} SplitLength(s: string, sep: char)
    ensures |Split(s, sep)| == Count(s, sep) + 1
  {
    if |s| > 0 {
      SplitLength(s[1..], sep);
    }
  }

  /** No piece of Split contains the separator. */
  lemma {:induction false} SplitPiecesFree(s: string, sep: char)
    ensures forall k :: 0 <= k < |Split(s, sep)| ==> sep !in Split(s, sep)[k]
  {
    if |s| > 0 {
      SplitPiecesFree(s[1..], sep);
    }
  }

  /** Joining the pieces with the separator gives back the input. */
  lemma {:induction false} JoinSplit(s: string, sep: char)
    ensures Join(Split(s, sep), sep) == s
  {
    if |s| > 0 {
      var t := Split(s[1..], sep);
      JoinSplit(s[1..], sep);
      if s[0] == sep {
        assert ([""] + t)[1..] == t;
        assert s == [sep] + s[1..];
      } else {
        var r := [[s[0]] + t[0]] + t[1..];
        assert r[1..] == t[1..];
        if |t| == 1 {
          assert s == [s[0]] + t[0];
        } else {
          assert t[0] + [sep] + Join(t[1..], sep) == s[1..];
          assert s == [s[0]] + s[1..];
        }
      }
    }
  }

  /** Splitting a join of separator-free pieces gives back the pieces. */
  lemma {:induction false} SplitJoin(parts: seq<string>, sep: char)
    requires |parts| >= 1
    requires forall k :: 0 <= k < |parts| ==> sep !in parts[k]
    ensures Split(Join(parts, sep), sep) == parts
    decreases |parts|, |parts[0]|
  {
    var p := parts[0];
    if p == [] {
      if |parts| > 1 {
        var j := Join(parts, sep);
        assert j == [sep] + Join(parts[1..], sep);
        assert j[1..] == Join(parts[1..], sep);
        SplitJoin(parts[1..], sep);
        assert [""] + parts[1..] == parts;
      }
    } else {
      var rest := [p[1..]] + parts[1..];
      assert rest[1..] == parts[1..];
      var j := Join(parts, sep);
      assert Join(rest, sep) == j[1..];
      assert j[0] == p[0] && p[0] != sep;
      SplitJoin(rest, sep);
      assert [p[0]] + p[1..] == p;
      assert [[p[0]] + rest[0]] + rest[1..] == parts;
    }
  }
}
