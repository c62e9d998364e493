/** Literal, global string replacement, as `fill_form` does it with Rust's
    `str::replace`: occurrences of the pattern are found left to right,
    never overlapping, each is replaced, and the inserted text is not
    searched again. An empty pattern matches at every character boundary.
 */
module Replace {

  /** The pattern occurs in `s` starting at position `i`. */
  predicate OccursAt(s: string, pat: string, i: nat)
  {
    i + |pat| <= |s| && s[i..i + |pat|] == pat
  }

  /** The pattern occurs somewhere in `s`. */
  ghost predicate Occurs(s: string, pat: string)
  {
    exists i: nat :: OccursAt(s, pat, i)
  }

  /** `s` with every leftmost, non-overlapping occurrence of `pat` replaced
      by `rep`. */
  function ReplaceAll(s: string, pat: string, rep: string): (r: string)
    ensures pat != [] && |s| < |pat| ==> r == s
    decreases |s|
  {
    if pat == [] then
      (if s == [] then rep else rep + [s[0]] + ReplaceAll(s[1..], pat, rep))
    else if pat <= s then rep + ReplaceAll(s[|pat|..], pat, rep)
    else if s == [] then []
    else [s[0]] + ReplaceAll(s[1..], pat, rep)
  }

  /** The number of occurrences `ReplaceAll` replaces. Occurrences of a
      non-empty pattern do not overlap, so they take up at most the whole
      text. */
  function Count(s: string, pat: string): (r: nat)
    ensures pat != [] ==> r * |pat| <= |s|
    decreases |s|
  {
    if pat == [] then |s| + 1
    else if pat <= s then MulSucc(Count(s[|pat|..], pat), |pat|); 1 + Count(s[|pat|..], pat)
    else if s == [] then 0
    else Count(s[1..], pat)
  }

  /** A pattern is a prefix exactly when it occurs at position 0. */
  lemma PrefixOccursAt(s: string, pat: string)
    ensures pat <= s <==> OccursAt(s, pat, 0)
  {
    if OccursAt(s, pat, 0) {
      assert s[..|pat|] == pat;
    }
  }

  /** An occurrence in the tail is an occurrence in the whole, one further
      on, and conversely. */
  lemma OccursAtTail(s: string, pat: string, i: nat)
    requires s != []
    ensures OccursAt(s[1..], pat, i) <==> OccursAt(s, pat, i + 1)
  {
    if i + |pat| <= |s[1..]| {
      assert s[1..][i..i + |pat|] == s[i + 1..i + 1 + |pat|];
    }
  }

  /** Replacing `k` occurrences changes the length by `k` times the
      difference between the replacement and the pattern. */
  lemma {:induction false} ReplaceLength(s: string, pat: string, rep: string)
    ensures |ReplaceAll(s, pat, rep)| == |s| + Count(s, pat) * (|rep| - |pat|)
    decreases |s|
  {
    var d := |rep| - |pat|;
    if pat == [] {
      if s != [] {
        ReplaceLength(s[1..], pat, rep);
        var c := Count(s[1..], pat);
        assert |ReplaceAll(s, pat, rep)| == |rep| + 1 + |s[1..]| + c * d;
        MulSucc(c, d);
      }
    } else if pat <= s {
      ReplaceLength(s[|pat|..], pat, rep);
      var c := Count(s[|pat|..], pat);
      assert |ReplaceAll(s, pat, rep)| == |rep| + |s[|pat|..]| + c * d;
      MulSucc(c, d);
    } else if s != [] {
      ReplaceLength(s[1..], pat, rep);
    }
  }

  lemma MulSucc(c: int, d: int)
    ensures (c + 1) * d == c * d + d
  {
  }

  /** For a non-empty pattern, nothing is replaced exactly when the pattern
      does not occur. */
  lemma {:induction false} CountZeroIff(s: string, pat: string)
    requires pat != []
    ensures Count(s, pat) == 0 <==> !Occurs(s, pat)
    decreases |s|
  {
    PrefixOccursAt(s, pat);
    if pat <= s {
    } else if s != [] {
      CountZeroIff(s[1..], pat);
      if Occurs(s, pat) {
        var i: nat :| OccursAt(s, pat, i);
        assert i > 0;
        OccursAtTail(s, pat, i - 1);
      }
      if Occurs(s[1..], pat) {
        var i: nat :| OccursAt(s[1..], pat, i);
        OccursAtTail(s, pat, i);
      }
    }
  }

  /** A non-empty pattern that does not occur leaves the text unchanged. */
  lemma {:induction false} ReplaceAbsent(s: string, pat: string, rep: string)
    requires pat != [] && !Occurs(s, pat)
    ensures ReplaceAll(s, pat, rep) == s
    decreases |s|
  {
    if s != [] {
      AbsentTail(s, pat);
      ReplaceAbsent(s[1..], pat, rep);
      ReplaceSkipHead(s[0], s[1..], pat, rep);
      assert s == [s[0]] + s[1..];
    }
  }

  /** A pattern that does not occur is not a prefix and does not occur in
      the tail either. */
  lemma AbsentTail(s: string, pat: string)
    requires s != [] && !Occurs(s, pat)
    ensures !(pat <= [s[0]] + s[1..]) && !Occurs(s[1..], pat)
  {
    assert [s[0]] + s[1..] == s;
    PrefixOccursAt(s, pat);
    if Occurs(s[1..], pat) {
      var i: nat :| OccursAt(s[1..], pat, i);
      OccursAtTail(s, pat, i);
    }
  }

  /** Replacing a pattern by itself is the identity. */
  lemma {:induction false} ReplaceSelf(s: string, pat: string)
    ensures ReplaceAll(s, pat, pat) == s
    decreases |s|
  {
    if pat == [] {
      if s != [] {
        ReplaceSelf(s[1..], pat);
        assert s == [s[0]] + s[1..];
      }
    } else if pat <= s {
      ReplaceSelf(s[|pat|..], pat);
      assert s == pat + s[|pat|..];
    } else if s != [] {
      ReplaceSelf(s[1..], pat);
      assert s == [s[0]] + s[1..];
    }
  }

  /** Text in front of the first occurrence is copied unchanged, and
      replacement carries on after it. */
  lemma {:induction false} ReplaceCopy(a: string, b: string, pat: string, rep: string)
    requires pat != []
    requires forall i :: 0 <= i < |a| ==> !OccursAt(a + b, pat, i)
    ensures ReplaceAll(a + b, pat, rep) == a + ReplaceAll(b, pat, rep)
    decreases |a|
  {
    if a == [] {
      assert a + b == b;
    } else {
      NoOccurrenceInTail(a, b, pat);
      ReplaceCopy(a[1..], b, pat, rep);
      ReplaceCopyCons(a, b, pat, rep);
    }
  }

  /** The step of `ReplaceCopy`: a first character that does not begin an
      occurrence is copied in front of the rest. */
  lemma ReplaceCopyCons(a: string, b: string, pat: string, rep: string)
    requires pat != [] && a != [] && !OccursAt(a + b, pat, 0)
    requires ReplaceAll(a[1..] + b, pat, rep) == a[1..] + ReplaceAll(b, pat, rep)
    ensures ReplaceAll(a + b, pat, rep) == a + ReplaceAll(b, pat, rep)
  {
    HeadSplit(a, b, pat);
    ReplaceCopyStep(a[0], a[1..], b, pat, rep);
    ConsSplit(a, ReplaceAll(b, pat, rep));
  }

  /** A non-empty text in front of another is its first character in front
      of the rest. */
  lemma ConsSplit(a: string, x: string)
    requires a != []
    ensures a + x == [a[0]] + (a[1..] + x)
  {
    assert a == [a[0]] + a[1..];
  }

  /** Dropping the first character keeps the front free of occurrences. */
  lemma NoOccurrenceInTail(a: string, b: string, pat: string)
    requires a != []
    requires forall i :: 0 <= i < |a| ==> !OccursAt(a + b, pat, i)
    ensures forall i :: 0 <= i < |a[1..]| ==> !OccursAt(a[1..] + b, pat, i)
  {
    var s := a + b;
    assert s[1..] == a[1..] + b;
    forall i | 0 <= i < |a[1..]|
      ensures !OccursAt(a[1..] + b, pat, i)
    {
      OccursAtTail(s, pat, i);
    }
  }

  lemma HeadSplit(a: string, b: string, pat: string)
    requires a != [] && !OccursAt(a + b, pat, 0)
    ensures a + b == [a[0]] + (a[1..] + b)
    ensures !(pat <= [a[0]] + (a[1..] + b))
  {
    ConsSplit(a, b);
    PrefixOccursAt(a + b, pat);
  }

  lemma ReplaceCopyStep(c: char, a1: string, b: string, pat: string, rep: string)
    requires pat != []
    requires !(pat <= [c] + (a1 + b))
    requires ReplaceAll(a1 + b, pat, rep) == a1 + ReplaceAll(b, pat, rep)
    ensures ReplaceAll([c] + (a1 + b), pat, rep) == [c] + (a1 + ReplaceAll(b, pat, rep))
  {
    ReplaceSkipHead(c, a1 + b, pat, rep);
  }

  /** An occurrence at the front is replaced first. */
  lemma ReplaceAtPrefix(pat: string, b: string, rep: string)
    requires pat != []
    ensures ReplaceAll(pat + b, pat, rep) == rep + ReplaceAll(b, pat, rep)
  {
    assert pat <= pat + b;
    assert (pat + b)[|pat|..] == b;
  }

  /** A first character that does not begin an occurrence is copied. */
  lemma ReplaceSkipHead(c: char, t: string, pat: string, rep: string)
    requires pat != [] && !(pat <= [c] + t)
    ensures ReplaceAll([c] + t, pat, rep) == [c] + ReplaceAll(t, pat, rep)
  {
    assert ([c] + t)[1..] == t;
  }

  /** The leftmost occurrence is replaced, the text before it is copied,
      and replacement carries on in the original text after it: the
      inserted text is never searched again by the same call. */
  lemma ReplaceLeftmost(a: string, pat: string, b: string, rep: string)
    requires pat != []
    requires forall i :: 0 <= i < |a| ==> !OccursAt(a + pat + b, pat, i)
    ensures ReplaceAll(a + pat + b, pat, rep) == a + rep + ReplaceAll(b, pat, rep)
  {
    assert a + pat + b == a + (pat + b);
    ReplaceCopy(a, pat + b, pat, rep);
    ReplaceAtPrefix(pat, b, rep);
  }

  /** Text in front of the first occurrence adds nothing to the count. */
  lemma {:induction false} CountCopy(a: string, b: string, pat: string)
    requires pat != []
    requires forall i :: 0 <= i < |a| ==> !OccursAt(a + b, pat, i)
    ensures Count(a + b, pat) == Count(b, pat)
    decreases |a|
  {
    if a == [] {
      assert a + b == b;
    } else {
      NoOccurrenceInTail(a, b, pat);
      CountCopy(a[1..], b, pat);
      HeadSplit(a, b, pat);
      CountSkipHead(a[0], a[1..] + b, pat);
    }
  }

  lemma CountSkipHead(c: char, t: string, pat: string)
    requires pat != [] && !(pat <= [c] + t)
    ensures Count([c] + t, pat) == Count(t, pat)
  {
    assert ([c] + t)[1..] == t;
  }

  /** The step law of the count: the leftmost occurrence counts once, and
      counting carries on in the text after it. */
  lemma CountLeftmost(a: string, pat: string, b: string)
    requires pat != []
    requires forall i :: 0 <= i < |a| ==> !OccursAt(a + pat + b, pat, i)
    ensures Count(a + pat + b, pat) == 1 + Count(b, pat)
  {
    assert a + pat + b == a + (pat + b);
    CountCopy(a, pat + b, pat);
    assert pat <= pat + b;
    assert (pat + b)[|pat|..] == b;
  }
}
