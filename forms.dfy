/** Forms (placeholders) and the scanner that finds them.

    The source finds forms with the regular expression `\{(.*?)\}` under the
    regex crate's default flags, where `.` matches any character except a
    newline. This module replaces the regex by an explicit left-to-right
    scanner over `seq<char>` and proves that the scanner returns exactly the
    leftmost, shortest, non-overlapping matches of that pattern.
 */
module Forms {

  datatype Option<T> = None | Some(value: T)

  /** A form found in the text: `name` is the text between the braces and
      `form` the whole marker, braces included. */
  datatype Form = Form(name: string, form: string)

  /** The marker of the form named `name`. */
  function Marker(name: string): string
  {
    "{" + name + "}"
  }

  /** The position of one match: the opening brace at `start` and the
      closing brace at `stop`. */
  datatype Span = Span(start: nat, stop: nat)

  // ---------------------------------------------------------------------
  // Reference definitions: what the pattern `\{(.*?)\}` matches.
  // ---------------------------------------------------------------------

  /** The pattern matches s[i..j+1]: a `{`, then characters other than a
      newline, then a `}`. */
  predicate Matches(s: string, i: nat, j: nat)
  {
    i < j < |s| && s[i] == '{' && s[j] == '}' &&
    forall m :: i < m < j ==> s[m] != '\n'
  }

  /** The lazy `.*?` picks, among the matches that start at `i`, the
      shortest one. */
  predicate LazyMatch(s: string, i: nat, j: nat)
  {
    Matches(s, i, j) && forall j' :: i < j' < j ==> !Matches(s, i, j')
  }

  /** Some match of the pattern starts at position `i`. */
  ghost predicate StartsMatch(s: string, i: nat)
  {
    exists j: nat :: Matches(s, i, j)
  }

  /** Position `i` lies within one of the matches of `r`. */
  ghost predicate Covered(r: seq<Span>, i: nat)
  {
    exists k :: 0 <= k < |r| && r[k].start <= i <= r[k].stop
  }

  /** `r` is the sequence of matches a leftmost-first regex search yields
      from position `p`: every entry is the shortest match at its start,
      the entries are in strictly increasing order without overlap, and
      every position from `p` on where a match could start lies within one
      of them (so none was skipped). */
  ghost predicate LeftmostMatches(s: string, p: nat, r: seq<Span>)
  {
    && (forall k :: 0 <= k < |r| ==> p <= r[k].start && LazyMatch(s, r[k].start, r[k].stop))
    && (forall j, k :: 0 <= j < k < |r| ==> r[j].stop < r[k].start)
    && (forall i :: p <= i < |s| && StartsMatch(s, i) ==> Covered(r, i))
  }

  // ---------------------------------------------------------------------
  // The scanner.
  // ---------------------------------------------------------------------

  /** From position `k`, the first `}` before any newline. */
  function FindClose(s: string, k: nat): (r: Option<nat>)
    requires k <= |s|
    ensures r.Some? ==> k <= r.value < |s| && s[r.value] == '}'
    decreases |s| - k
  {
    if k == |s| then None
    else if s[k] == '}' then Some(k)
    else if s[k] == '\n' then None
    else FindClose(s, k + 1)
  }

  /** The end of the match that starts at `i`, if one does. */
  function MatchEnd(s: string, i: nat): (r: Option<nat>)
    requires i < |s|
    ensures r.Some? ==> i < r.value < |s| && s[i] == '{' && s[r.value] == '}'
  {
    if s[i] == '{' then FindClose(s, i + 1) else None
  }

  /** One step of the regex's match iterator: the leftmost match that starts
      at or after `p`. */
  function NextMatch(s: string, p: nat): (r: Option<Span>)
    requires p <= |s|
    ensures r.Some? ==> p <= r.value.start < r.value.stop < |s|
    ensures r.Some? ==> s[r.value.start] == '{' && s[r.value.stop] == '}'
    decreases |s| - p
  {
    if p == |s| then None
    else match MatchEnd(s, p)
      case Some(j) => Some(Span(p, j))
      case None => NextMatch(s, p + 1)
  }

  /** All matches from `p` on, as the iterator yields them. Each match
      takes at least two characters, so there are at most half as many as
      there are characters left. */
  function Scan(s: string, p: nat): (r: seq<Span>)
    requires p <= |s|
    ensures forall k :: 0 <= k < |r| ==> p <= r[k].start < r[k].stop < |s|
    ensures 2 * |r| <= |s| - p
    decreases |s| - p
  {
    match NextMatch(s, p)
    case None => []
    case Some(m) => [m] + Scan(s, m.stop + 1)
  }

  /** The form a match denotes: capture group 1 as the name, the whole
      match as the marker. */
  function FormAt(s: string, m: Span): (r: Form)
    requires m.start < m.stop < |s|
    ensures |r.name| == m.stop - m.start - 1 && |r.form| == |r.name| + 2
  {
    Form(s[m.start + 1..m.stop], s[m.start..m.stop + 1])
  }

  /** The forms of a sequence of matches, in the same order. */
  function FormsIn(s: string, spans: seq<Span>): (r: seq<Form>)
    requires forall k :: 0 <= k < |spans| ==> spans[k].start < spans[k].stop < |s|
    ensures |r| == |spans|
  {
    if spans == [] then [] else [FormAt(s, spans[0])] + FormsIn(s, spans[1..])
  }

  /** The k-th form is the form of the k-th match. */
  lemma {:induction false} FormsInAt(s: string, spans: seq<Span>)
    requires forall k :: 0 <= k < |spans| ==> spans[k].start < spans[k].stop < |s|
    ensures forall k :: 0 <= k < |spans| ==> FormsIn(s, spans)[k] == FormAt(s, spans[k])
  {
    if spans != [] {
      FormsInAt(s, spans[1..]);
    }
  }

  /** The forms found from position `p` on. */
  function FormsFrom(s: string, p: nat): (r: seq<Form>)
    requires p <= |s|
    ensures |r| == |Scan(s, p)| && 2 * |r| <= |s| - p
  {
    FormsIn(s, Scan(s, p))
  }

  /** The forms `get_forms` returns for the text `s`: one per match, so at
      most half as many as the text has characters. */
  function FormsOf(s: string): (r: seq<Form>)
    ensures |r| == |Scan(s, 0)| && 2 * |r| <= |s|
  {
    FormsFrom(s, 0)
  }

  // ---------------------------------------------------------------------
  // The scanner yields exactly the leftmost matches.
  // ---------------------------------------------------------------------

  /** `FindClose` stops at the first `}`, and gives up at a newline or at
      the end of the text. */
  lemma {:induction false} FindCloseSpec(s: string, k: nat)
    requires k <= |s|
    ensures FindClose(s, k).Some? ==> s[FindClose(s, k).value] == '}'
    ensures FindClose(s, k).Some? ==>
      forall m :: k <= m < FindClose(s, k).value ==> s[m] != '}' && s[m] != '\n'
    ensures FindClose(s, k).None? ==>
      forall j :: k <= j < |s| && s[j] == '}' ==> exists m :: k <= m < j && s[m] == '\n'
    decreases |s| - k
  {
    if k < |s| && s[k] != '}' && s[k] != '\n' {
      FindCloseSpec(s, k + 1);
    }
  }

  /** `MatchEnd` finds the shortest match at `i`, and finds none only when
      no match starts there. */
  lemma MatchEndSpec(s: string, i: nat)
    requires i < |s|
    ensures MatchEnd(s, i).Some? ==> LazyMatch(s, i, MatchEnd(s, i).value)
    ensures MatchEnd(s, i).None? ==> !StartsMatch(s, i)
  {
    FindCloseSpec(s, i + 1);
  }

  /** `NextMatch` finds the shortest match at the leftmost position from `p`
      on where one starts, and finds none only when no match starts there. */
  lemma {:induction false} NextMatchSpec(s: string, p: nat)
    requires p <= |s|
    ensures NextMatch(s, p).Some? ==> LazyMatch(s, NextMatch(s, p).value.start, NextMatch(s, p).value.stop)
    ensures NextMatch(s, p).Some? ==> forall i :: p <= i < NextMatch(s, p).value.start ==> !StartsMatch(s, i)
    ensures NextMatch(s, p).None? ==> forall i :: p <= i < |s| ==> !StartsMatch(s, i)
    decreases |s| - p
  {
    if p < |s| {
      MatchEndSpec(s, p);
      if MatchEnd(s, p).None? {
        NextMatchSpec(s, p + 1);
      }
    }
  }

  /** At a given start there is at most one shortest match. */
  lemma LazyMatchUnique(s: string, i: nat, j1: nat, j2: nat)
    requires LazyMatch(s, i, j1) && LazyMatch(s, i, j2)
    ensures j1 == j2
  {
  }

  /** Scanning yields leftmost, shortest, non-overlapping matches. */
  lemma {:induction false} ScanLeftmost(s: string, p: nat)
    requires p <= |s|
    ensures LeftmostMatches(s, p, Scan(s, p))
    decreases |s| - p
  {
    NextMatchSpec(s, p);
    match NextMatch(s, p)
    case None =>
    case Some(m) =>
      ScanLeftmost(s, m.stop + 1);
      ScanLeftmostStep(s, p, m);
  }

  /** The step of `ScanLeftmost`: a match followed by leftmost matches from
      just past it. */
  lemma ScanLeftmostStep(s: string, p: nat, m: Span)
    requires p <= |s| && NextMatch(s, p) == Some(m)
    requires LazyMatch(s, m.start, m.stop)
    requires forall i :: p <= i < m.start ==> !StartsMatch(s, i)
    requires LeftmostMatches(s, m.stop + 1, Scan(s, m.stop + 1))
    ensures LeftmostMatches(s, p, Scan(s, p))
  {
    var rest := Scan(s, m.stop + 1);
    assert Scan(s, p) == [m] + rest;
    LeftmostCons(s, p, m, rest);
  }

  /** A shortest match with no match starting before it, followed by
      leftmost matches from just past it, are leftmost matches. */
  lemma LeftmostCons(s: string, p: nat, m: Span, rest: seq<Span>)
    requires p <= m.start && LazyMatch(s, m.start, m.stop)
    requires forall i :: p <= i < m.start ==> !StartsMatch(s, i)
    requires LeftmostMatches(s, m.stop + 1, rest)
    ensures LeftmostMatches(s, p, [m] + rest)
  {
    var r := [m] + rest;
    assert forall k :: 0 < k < |r| ==> r[k] == rest[k - 1];
    forall i | p <= i < |s| && StartsMatch(s, i)
      ensures Covered(r, i)
    {
      if i <= m.stop {
        assert r[0].start <= i <= r[0].stop;
      } else {
        var k :| 0 <= k < |rest| && rest[k].start <= i <= rest[k].stop;
        assert r[k + 1] == rest[k];
      }
    }
  }

  /** The first of a sequence of leftmost matches is the iterator's next
      match. */
  lemma LeftmostHead(s: string, p: nat, r: seq<Span>, m: Span)
    requires p <= |s|
    requires LeftmostMatches(s, p, r)
    requires NextMatch(s, p) == Some(m)
    ensures r != [] && r[0] == m
  {
    NextMatchSpec(s, p);
    assert StartsMatch(s, m.start);
    assert Covered(r, m.start);
    var k :| 0 <= k < |r| && r[k].start <= m.start <= r[k].stop;
    assert StartsMatch(s, r[0].start);
    if k > 0 {
      assert false;
    }
    LazyMatchUnique(s, m.start, m.stop, r[0].stop);
  }

  /** What follows the first of a sequence of leftmost matches is a
      sequence of leftmost matches from just past it. */
  lemma LeftmostTail(s: string, p: nat, r: seq<Span>)
    requires LeftmostMatches(s, p, r)
    requires r != []
    ensures LeftmostMatches(s, r[0].stop + 1, r[1..])
  {
    var rest := r[1..];
    forall i | r[0].stop + 1 <= i < |s| && StartsMatch(s, i)
      ensures Covered(rest, i)
    {
      var k :| 0 <= k < |r| && r[k].start <= i <= r[k].stop;
      assert k > 0;
      assert rest[k - 1] == r[k];
    }
  }

  /** Any sequence of leftmost matches from `p` is the scanner's. */
  lemma {:induction false} ScanUnique(s: string, p: nat, r: seq<Span>)
    requires p <= |s|
    requires LeftmostMatches(s, p, r)
    ensures r == Scan(s, p)
    decreases |s| - p
  {
    NextMatchSpec(s, p);
    match NextMatch(s, p)
    case None =>
      if r != [] {
        assert StartsMatch(s, r[0].start);
        assert false;
      }
    case Some(m) =>
      LeftmostHead(s, p, r, m);
      LeftmostTail(s, p, r);
      ScanUnique(s, m.stop + 1, r[1..]);
      assert r == [m] + r[1..];
  }

  /** The shape of a shortest match: the marker is the name in braces, and
      the name holds no `}` and no newline. */
  lemma LazyMatchShape(s: string, i: nat, j: nat)
    requires LazyMatch(s, i, j)
    ensures s[i..j + 1] == "{" + s[i + 1..j] + "}"
    ensures '}' !in s[i + 1..j] && '\n' !in s[i + 1..j]
  {
    forall m | i < m < j
      ensures s[m] != '}'
    {
      assert !Matches(s, i, m);
    }
  }

  // ---------------------------------------------------------------------
  // Properties of the extracted forms.
  // ---------------------------------------------------------------------

  /** Every extracted form is its name in braces, and no name contains a
      closing brace or a newline. */
  lemma FormsShape(s: string)
    ensures forall f :: f in FormsOf(s) ==> f.form == Marker(f.name)
    ensures forall f :: f in FormsOf(s) ==> '}' !in f.name && '\n' !in f.name
  {
    ScanLazy(s);
    FormsInShape(s, Scan(s, 0));
  }

  lemma FormsInShape(s: string, spans: seq<Span>)
    requires forall k :: 0 <= k < |spans| ==> spans[k].start < spans[k].stop < |s|
    requires forall k :: 0 <= k < |spans| ==> LazyMatch(s, spans[k].start, spans[k].stop)
    ensures forall f :: f in FormsIn(s, spans) ==> f.form == Marker(f.name)
    ensures forall f :: f in FormsIn(s, spans) ==> '}' !in f.name && '\n' !in f.name
  {
    var fs := FormsIn(s, spans);
    FormsInAt(s, spans);
    forall f | f in fs
      ensures f.form == Marker(f.name)
      ensures '}' !in f.name && '\n' !in f.name
    {
      var k :| 0 <= k < |fs| && fs[k] == f;
      assert f == FormAt(s, spans[k]);
      FormAtShape(s, spans[k]);
    }
  }

  lemma FormAtShape(s: string, m: Span)
    requires m.start < m.stop < |s|
    requires LazyMatch(s, m.start, m.stop)
    ensures FormAt(s, m).form == Marker(FormAt(s, m).name)
    ensures '}' !in FormAt(s, m).name && '\n' !in FormAt(s, m).name
  {
    LazyMatchShape(s, m.start, m.stop);
  }

  lemma ScanLazy(s: string)
    ensures forall k :: 0 <= k < |Scan(s, 0)| ==> LazyMatch(s, Scan(s, 0)[k].start, Scan(s, 0)[k].stop)
  {
    ScanLeftmost(s, 0);
  }

  /** Each form occurs in the text at its recorded position, and the
      positions increase strictly without overlapping: the forms come in
      left-to-right order of appearance. */
  lemma FormsPositions(s: string)
    ensures |FormsOf(s)| == |Scan(s, 0)|
    ensures forall k :: 0 <= k < |Scan(s, 0)| ==>
      s[Scan(s, 0)[k].start..Scan(s, 0)[k].stop + 1] == FormsOf(s)[k].form
    ensures forall j, k :: 0 <= j < k < |Scan(s, 0)| ==> Scan(s, 0)[j].stop < Scan(s, 0)[k].start
  {
    ScanLeftmost(s, 0);
    FormsInAt(s, Scan(s, 0));
  }

  /** No forms are found exactly when no match starts anywhere. */
  lemma NoFormsIff(s: string)
    ensures FormsOf(s) == [] <==> forall i :: 0 <= i < |s| ==> !StartsMatch(s, i)
  {
    ScanLeftmost(s, 0);
    if forall i :: 0 <= i < |s| ==> !StartsMatch(s, i) {
      ScanUnique(s, 0, []);
    }
  }

  /** A text without an opening or without a closing brace has no forms. */
  lemma NoBraceNoForms(s: string)
    requires '{' !in s || '}' !in s
    ensures FormsOf(s) == []
  {
    forall i | 0 <= i < |s|
      ensures !StartsMatch(s, i)
    {
    }
    NoFormsIff(s);
  }

  // ---------------------------------------------------------------------
  // Scanning a text that starts with a marker.
  // ---------------------------------------------------------------------

  /** The spans moved `d` positions to the right. */
  function ShiftSpans(spans: seq<Span>, d: nat): (r: seq<Span>)
    ensures |r| == |spans|
    ensures forall k :: 0 <= k < |r| ==> r[k] == Span(d + spans[k].start, d + spans[k].stop)
  {
    if spans == [] then [] else [Span(d + spans[0].start, d + spans[0].stop)] + ShiftSpans(spans[1..], d)
  }

  /** A match in the suffix is a match in the whole text, and conversely. */
  lemma MatchesShift(u: string, y: string, i: nat, j: nat)
    ensures Matches(u + y, |u| + i, |u| + j) <==> Matches(y, i, j)
  {
    var s := u + y;
    if i < j < |y| {
      assert s[|u| + i] == y[i] && s[|u| + j] == y[j];
      if Matches(y, i, j) {
        forall m | |u| + i < m < |u| + j
          ensures s[m] != '\n'
        {
          assert s[m] == y[m - |u|];
        }
      }
      if Matches(s, |u| + i, |u| + j) {
        forall m | i < m < j
          ensures y[m] != '\n'
        {
          assert s[|u| + m] == y[m];
        }
      }
    }
  }

  lemma LazyMatchShift(u: string, y: string, i: nat, j: nat)
    requires LazyMatch(y, i, j)
    ensures LazyMatch(u + y, |u| + i, |u| + j)
  {
    var s, a := u + y, |u| + i;
    MatchesShift(u, y, i, j);
    forall j': nat | a < j' < |u| + j
      ensures !Matches(s, a, j')
    {
      MatchesShift(u, y, i, j' - |u|);
    }
  }

  lemma StartsMatchShift(u: string, y: string, i: nat)
    requires |u| <= i && StartsMatch(u + y, i)
    ensures StartsMatch(y, i - |u|)
  {
    var j: nat :| Matches(u + y, i, j);
    MatchesShift(u, y, i - |u|, j - |u|);
  }

  /** Scanning the suffix of a text from where it begins finds the matches of
      the suffix on its own, moved along. */
  lemma ScanShift(u: string, y: string)
    ensures Scan(u + y, |u|) == ShiftSpans(Scan(y, 0), |u|)
  {
    ScanLeftmost(y, 0);
    ShiftLeftmost(u, y, Scan(y, 0));
    ScanUnique(u + y, |u|, ShiftSpans(Scan(y, 0), |u|));
  }

  /** Leftmost matches of the suffix, moved along, are leftmost matches of
      the whole text from where the suffix begins. */
  lemma ShiftLeftmost(u: string, y: string, r: seq<Span>)
    requires LeftmostMatches(y, 0, r)
    ensures LeftmostMatches(u + y, |u|, ShiftSpans(r, |u|))
  {
    ShiftLazy(u, y, r);
    ShiftCovered(u, y, r);
  }

  lemma ShiftLazy(u: string, y: string, r: seq<Span>)
    requires forall k :: 0 <= k < |r| ==> LazyMatch(y, r[k].start, r[k].stop)
    ensures forall k :: 0 <= k < |r| ==>
      LazyMatch(u + y, ShiftSpans(r, |u|)[k].start, ShiftSpans(r, |u|)[k].stop)
  {
    var sh := ShiftSpans(r, |u|);
    forall k | 0 <= k < |r|
      ensures LazyMatch(u + y, sh[k].start, sh[k].stop)
    {
      LazyMatchShift(u, y, r[k].start, r[k].stop);
    }
  }

  lemma ShiftCovered(u: string, y: string, r: seq<Span>)
    requires forall i :: 0 <= i < |y| && StartsMatch(y, i) ==> Covered(r, i)
    ensures forall i :: |u| <= i < |u + y| && StartsMatch(u + y, i) ==> Covered(ShiftSpans(r, |u|), i)
  {
    var sh := ShiftSpans(r, |u|);
    forall i | |u| <= i < |u + y| && StartsMatch(u + y, i)
      ensures Covered(sh, i)
    {
      StartsMatchShift(u, y, i);
      assert Covered(r, i - |u|);
      var k :| 0 <= k < |r| && r[k].start <= i - |u| <= r[k].stop;
      assert sh[k].start <= i <= sh[k].stop;
    }
  }

  /** Moving the text and the spans together gives the same forms. */
  lemma {:induction false} FormsInShift(u: string, y: string, spans: seq<Span>)
    requires forall k :: 0 <= k < |spans| ==> spans[k].start < spans[k].stop < |y|
    ensures FormsIn(u + y, ShiftSpans(spans, |u|)) == FormsIn(y, spans)
  {
    if spans != [] {
      var sh := ShiftSpans(spans, |u|);
      FormsInShift(u, y, spans[1..]);
      assert sh[1..] == ShiftSpans(spans[1..], |u|);
      FormAtShift(u, y, spans[0]);
    }
  }

  lemma FormAtShift(u: string, y: string, m: Span)
    requires m.start < m.stop < |y|
    ensures FormAt(u + y, Span(|u| + m.start, |u| + m.stop)) == FormAt(y, m)
  {
    SliceShift(u, y, m.start + 1, m.stop);
    SliceShift(u, y, m.start, m.stop + 1);
  }

  lemma SliceShift(u: string, y: string, i: nat, j: nat)
    requires i <= j <= |y|
    ensures (u + y)[|u| + i..|u| + j] == y[i..j]
  {
    assert (u + y)[|u|..] == y;
    assert (u + y)[|u|..][i..j] == y[i..j];
  }

  /** The forms found from where the suffix begins are the suffix's own. */
  lemma FormsFromSuffix(u: string, y: string)
    ensures FormsFrom(u + y, |u|) == FormsOf(y)
  {
    ScanShift(u, y);
    FormsInShift(u, y, Scan(y, 0));
  }

  /** One step of the iterator contributes one form. */
  lemma FormsFromStep(s: string, p: nat, m: Span)
    requires p <= |s|
    requires NextMatch(s, p) == Some(m)
    ensures m.start < m.stop < |s|
    ensures FormsFrom(s, p) == [FormAt(s, m)] + FormsFrom(s, m.stop + 1)
  {
    var rest := Scan(s, m.stop + 1);
    assert Scan(s, p) == [m] + rest;
    assert ([m] + rest)[1..] == rest;
  }

  /** The step of `FormsFromStep` seen from a loop that has already
      collected `acc`. */
  lemma FormsFromAppend(s: string, p: nat, m: Span, acc: seq<Form>)
    requires p <= |s|
    requires NextMatch(s, p) == Some(m)
    ensures p < m.stop + 1 <= |s|
    ensures acc + FormsFrom(s, p) == (acc + [FormAt(s, m)]) + FormsFrom(s, m.stop + 1)
  {
    FormsFromStep(s, p, m);
  }

  /** When the iterator finds nothing more, no forms are added. */
  lemma FormsFromNone(s: string, p: nat)
    requires p <= |s|
    requires NextMatch(s, p).None?
    ensures FormsFrom(s, p) == []
  {
  }

  /** Skipping over text with no opening brace finds nothing. */
  lemma {:induction false} NextMatchSkip(s: string, p: nat, q: nat)
    requires p <= q <= |s|
    requires forall i :: p <= i < q ==> s[i] != '{'
    ensures NextMatch(s, p) == NextMatch(s, q)
    decreases q - p
  {
    if p < q {
      NextMatchSkip(s, p + 1, q);
    }
  }

  /** Scanning for the close over characters that are neither `}` nor a
      newline reaches the `}` at `q`. */
  lemma {:induction false} FindCloseRun(s: string, k: nat, q: nat)
    requires k <= q < |s| && s[q] == '}'
    requires forall m :: k <= m < q ==> s[m] != '}' && s[m] != '\n'
    ensures FindClose(s, k) == Some(q)
    decreases q - k
  {
    if k < q {
      FindCloseRun(s, k + 1, q);
    }
  }

  /** Brace-free text in front contributes no forms. */
  lemma BraceFreePrefix(x: string, y: string)
    requires '{' !in x
    ensures FormsOf(x + y) == FormsOf(y)
  {
    var s := x + y;
    forall i | 0 <= i < |x|
      ensures s[i] != '{'
    {
      assert s[i] == x[i];
    }
    NextMatchSkip(s, 0, |x|);
    assert Scan(s, 0) == Scan(s, |x|);
    FormsFromSuffix(x, y);
  }

  /** A marker in front yields its form, followed by the forms of the
      rest. */
  lemma MarkerAtFront(n: string, y: string)
    requires '}' !in n && '\n' !in n
    ensures FormsOf(Marker(n) + y) == [Form(n, Marker(n))] + FormsOf(y)
  {
    var u := Marker(n);
    var s := u + y;
    var stop := |n| + 1;
    assert s[0] == '{';
    forall m | 1 <= m < stop
      ensures s[m] != '}' && s[m] != '\n'
    {
      assert s[m] == n[m - 1];
    }
    assert s[stop] == '}';
    FindCloseRun(s, 1, stop);
    assert NextMatch(s, 0) == Some(Span(0, stop));
    FormsFromStep(s, 0, Span(0, stop));
    assert s[1..stop] == n;
    assert s[0..stop + 1] == u;
    assert |u| == stop + 1;
    FormsFromSuffix(u, y);
  }
}
