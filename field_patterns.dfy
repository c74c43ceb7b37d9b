/** The date regular expressions of the statement parser. Each is three runs
    of ASCII digits, `\d{a,b}`, separated by single characters from a set. The
    four `parseDate` formats capture each run as a group. The line date pattern
    `(\d{1,2}[\/\-]\d{1,2}[\/\-]\d{2,4})` has one group around the whole
    match; for it only the span of a match is used, and its per-run groups here
    stand for nothing in the source. A `Pattern` describes one of them, `Splits`
    says when a string is a whole match of it, and `Find` is the leftmost-first
    search that `String.prototype.match` and `replace` perform with a
    non-global regular expression. */
module FieldPatterns {
  import opened Text

  /** `\d{lo,hi}` followed by one character of `seps`. */
  datatype Field = Field(lo: nat, hi: nat, seps: set<char>)

  /** `F1 ... Fn \d{lastLo,lastHi}`; every digit run is a capture group. */
  datatype Pattern = Pattern(fields: seq<Field>, lastLo: nat, lastHi: nat) {
    function Tail(): Pattern
      requires fields != []
    {
      Pattern(fields[1..], lastLo, lastHi)
    }
  }

  predicate FieldOk(f: Field) {
    1 <= f.lo <= f.hi && forall c :: c in f.seps ==> !IsDigit(c)
  }

  predicate WellFormed(pat: Pattern) {
    (forall i :: 0 <= i < |pat.fields| ==> FieldOk(pat.fields[i])) && 1 <= pat.lastLo <= pat.lastHi
  }

  lemma TailWellFormed(pat: Pattern)
    requires WellFormed(pat) && pat.fields != []
    ensures WellFormed(pat.Tail())
  {
    forall i | 0 <= i < |pat.Tail().fields|
      ensures FieldOk(pat.Tail().fields[i])
    {
      assert pat.Tail().fields[i] == pat.fields[i + 1];
    }
  }

  /** `t`, as a whole, matches `pat` with capture groups `groups`. */
  ghost predicate Splits(t: string, groups: seq<string>, pat: Pattern)
    decreases |pat.fields|
  {
    |groups| == |pat.fields| + 1 &&
    if pat.fields == [] then
      t == groups[0] && pat.lastLo <= |t| <= pat.lastHi && IsDigits(t)
    else
      var f, g := pat.fields[0], groups[0];
      f.lo <= |g| <= f.hi && IsDigits(g) && |g| < |t| && t[..|g|] == g && t[|g|] in f.seps &&
      Splits(t[|g| + 1..], groups[1..], pat.Tail())
  }

  /** Length of the run of digits that starts at `p`. */
  function DigitRun(s: string, p: nat): (n: nat)
    requires p <= |s|
    ensures p + n <= |s|
    decreases |s| - p
  {
    if p < |s| && IsDigit(s[p]) then 1 + DigitRun(s, p + 1) else 0
  }

  /** The run holds only digits, and no digit follows it. */
  lemma {:induction false} DigitRunMeaning(s: string, p: nat)
    requires p <= |s|
    ensures var n := DigitRun(s, p); forall j :: p <= j < p + n ==> IsDigit(s[j])
    ensures p + DigitRun(s, p) == |s| || !IsDigit(s[p + DigitRun(s, p)])
    decreases |s| - p
  {
    if p < |s| && IsDigit(s[p]) {
      DigitRunMeaning(s, p + 1);
    }
  }

  /** The run is a string of digits. */
  lemma DigitRunDigits(s: string, p: nat)
    requires p <= |s|
    ensures IsDigits(s[p..p + DigitRun(s, p)])
  {
    var n := DigitRun(s, p);
    DigitRunMeaning(s, p);
    var run := s[p..p + n];
    forall i | 0 <= i < |run|
      ensures IsDigit(run[i])
    {
      assert run[i] == s[p + i];
    }
  }

  lemma DigitsInSlice(s: string, p: nat, k: nat)
    requires p + k <= |s| && IsDigits(s[p..p + k])
    ensures forall j :: p <= j < p + k ==> IsDigit(s[j])
  {
    forall j | p <= j < p + k
      ensures IsDigit(s[j])
    {
      assert s[p..p + k][j - p] == s[j];
    }
  }

  lemma DigitsSubslice(s: string, p: nat, n: nat, k: nat)
    requires p + n <= |s| && IsDigits(s[p..p + n]) && k <= n
    ensures IsDigits(s[p..p + k])
  {
    var short, long := s[p..p + k], s[p..p + n];
    forall i | 0 <= i < |short|
      ensures IsDigit(short[i])
    {
      assert short[i] == long[i];
    }
  }

  lemma PrefixDigits(t: string, k: nat)
    requires k <= |t| && IsDigits(t[..k])
    ensures forall j :: 0 <= j < k ==> IsDigit(t[j])
  {
    forall j | 0 <= j < k
      ensures IsDigit(t[j])
    {
      assert t[..k][j] == t[j];
    }
  }

  lemma DigitRunAtLeast(s: string, p: nat, k: nat)
    requires p + k <= |s| && IsDigits(s[p..p + k])
    ensures DigitRun(s, p) >= k
  {
    DigitsInSlice(s, p, k);
    DigitRunMeaning(s, p);
  }

  lemma DigitRunIs(s: string, p: nat, k: nat)
    requires p + k <= |s| && IsDigits(s[p..p + k])
    requires p + k == |s| || !IsDigit(s[p + k])
    ensures DigitRun(s, p) == k
  {
    DigitRunAtLeast(s, p, k);
    DigitRunMeaning(s, p);
  }

  /** Where a match that starts at a fixed position ends, and its groups. */
  datatype Capture = Capture(end: nat, groups: seq<string>)

  /** The match of `pat` that starts at `p`, if any. A digit run followed by a
      separator must be the whole run of digits there (a shorter one would be
      followed by a digit), and the final run is taken as long as allowed. */
  function MatchAt(s: string, p: nat, pat: Pattern): (r: Option<Capture>)
    requires p <= |s| && WellFormed(pat)
    ensures r.Some? ==> p <= r.value.end <= |s| && |r.value.groups| == |pat.fields| + 1
    decreases |pat.fields|
  {
    var n := DigitRun(s, p);
    if pat.fields == [] then
      if n < pat.lastLo then None
      else Some(Capture(p + Min(n, pat.lastHi), [s[p..p + Min(n, pat.lastHi)]]))
    else
      var f := pat.fields[0];
      if f.lo <= n <= f.hi && p + n < |s| && s[p + n] in f.seps then
        TailWellFormed(pat);
        match MatchAt(s, p + n + 1, pat.Tail())
        case None => None
        case Some(c) => Some(Capture(c.end, [s[p..p + n]] + c.groups))
      else None
  }

  /** `MatchAt` goes past a field whose digits and separator are there. */
  lemma MatchAtStep(s: string, p: nat, pat: Pattern)
    requires WellFormed(pat) && pat.fields != [] && WellFormed(pat.Tail()) && p <= |s|
    requires var n := DigitRun(s, p);
             pat.fields[0].lo <= n <= pat.fields[0].hi && p + n < |s| && s[p + n] in pat.fields[0].seps
    ensures var n := DigitRun(s, p);
            MatchAt(s, p + n + 1, pat.Tail()).Some? ==>
              var c := MatchAt(s, p + n + 1, pat.Tail()).value;
              MatchAt(s, p, pat) == Some(Capture(c.end, [s[p..p + n]] + c.groups))
  {
    hide DigitRun, WellFormed;
  }

  /** `MatchAt` ends where the match of the rest ends once the first field's
      digits and separator are there. */
  lemma MatchAtCons(s: string, p: nat, pat: Pattern, k: nat)
    requires WellFormed(pat) && pat.fields != [] && p <= |s| && DigitRun(s, p) == k
    requires pat.fields[0].lo <= k <= pat.fields[0].hi && p + k < |s| && s[p + k] in pat.fields[0].seps
    requires WellFormed(pat.Tail()) && MatchAt(s, p + k + 1, pat.Tail()).Some?
    ensures MatchAt(s, p, pat).Some? && MatchAt(s, p, pat).value.end == MatchAt(s, p + k + 1, pat.Tail()).value.end
  {
  }

  /** A field's digits and separator in front of a match of the rest make a
      match of the whole pattern. */
  lemma SplitsCons(s: string, p: nat, n: nat, e: nat, pat: Pattern, groups: seq<string>)
    requires pat.fields != [] && p + n < e <= |s| && pat.fields[0].lo <= n <= pat.fields[0].hi
    requires IsDigits(s[p..p + n]) && s[p + n] in pat.fields[0].seps
    requires Splits(s[p + n + 1..e], groups, pat.Tail())
    ensures Splits(s[p..e], [s[p..p + n]] + groups, pat)
  {
    var all := [s[p..p + n]] + groups;
    assert s[p..e][..n] == s[p..p + n];
    assert s[p..e][n] == s[p + n];
    assert s[p..e][n + 1..] == s[p + n + 1..e];
    assert all[1..] == groups;
  }

  /** What `MatchAt` finds is a match: the text it spans splits into its groups. */
  lemma {:induction false} MatchAtMatches(s: string, p: nat, pat: Pattern)
    requires p <= |s| && WellFormed(pat)
    ensures MatchAt(s, p, pat).Some? ==>
              Splits(s[p..MatchAt(s, p, pat).value.end], MatchAt(s, p, pat).value.groups, pat)
    decreases |pat.fields|
  {
    var n := DigitRun(s, p);
    if MatchAt(s, p, pat).Some? {
      var e := MatchAt(s, p, pat).value.end;
      if pat.fields == [] {
        DigitRunMeaning(s, p);
        assert forall i :: 0 <= i < e - p ==> s[p..e][i] == s[p + i];
      } else {
        DigitRunDigits(s, p);
        TailWellFormed(pat);
        MatchAtStep(s, p, pat);
        assert MatchAt(s, p + n + 1, pat.Tail()).Some?;
        hide Splits, DigitRun, WellFormed;
        MatchAtMatches(s, p + n + 1, pat.Tail());
        var c := MatchAt(s, p + n + 1, pat.Tail()).value;
        SplitsCons(s, p, n, c.end, pat, c.groups);
      }
    }
  }

  /** A match in `s` from `p` with a first field starts with the whole run of
      digits at `p` and its separator, and goes on with a match of the rest. */
  lemma SplitsHead(s: string, p: nat, pat: Pattern, e: nat, groups: seq<string>)
    requires WellFormed(pat) && pat.fields != [] && p <= e <= |s| && Splits(s[p..e], groups, pat)
    ensures |groups| == |pat.fields| + 1
    ensures DigitRun(s, p) == |groups[0]| && pat.fields[0].lo <= |groups[0]| <= pat.fields[0].hi
    ensures p + |groups[0]| < e && s[p + |groups[0]|] in pat.fields[0].seps
    ensures Splits(s[p + |groups[0]| + 1..e], groups[1..], pat.Tail())
  {
    var t := s[p..e];
    var k := |groups[0]|;
    assert s[p..p + k] == t[..k];
    assert s[p + k] == t[k];
    assert FieldOk(pat.fields[0]);
    DigitRunIs(s, p, k);
    assert t[k + 1..] == s[p + k + 1..e];
  }

  /** The last field: its digits at `p` are found, to the end of the run of
      digits or to the field's maximum width. */
  lemma LastFieldLongest(s: string, p: nat, pat: Pattern, e: nat, groups: seq<string>)
    requires WellFormed(pat) && pat.fields == [] && p <= e <= |s| && Splits(s[p..e], groups, pat)
    ensures MatchAt(s, p, pat).Some? && e <= MatchAt(s, p, pat).value.end
  {
    DigitRunAtLeast(s, p, e - p);
  }

  /** Every match that starts at `p` is found by `MatchAt`, and ends no later. */
  lemma {:induction false} MatchAtLongest(s: string, p: nat, pat: Pattern, e: nat, groups: seq<string>)
    requires WellFormed(pat) && p <= e <= |s| && Splits(s[p..e], groups, pat)
    ensures MatchAt(s, p, pat).Some? && e <= MatchAt(s, p, pat).value.end
    decreases |pat.fields|
  {
    if pat.fields == [] {
      LastFieldLongest(s, p, pat, e, groups);
    } else {
      SplitsHead(s, p, pat, e, groups);
      hide MatchAt, Splits, DigitRun;
      var k := |groups[0]|;
      TailWellFormed(pat);
      MatchAtLongest(s, p + k + 1, pat.Tail(), e, groups[1..]);
      MatchAtCons(s, p, pat, k);
    }
  }

  lemma MatchAtIsLongest(s: string, p: nat, pat: Pattern)
    requires p <= |s| && WellFormed(pat)
    ensures forall e, groups :: p <= e <= |s| && Splits(s[p..e], groups, pat) ==>
              MatchAt(s, p, pat).Some? && e <= MatchAt(s, p, pat).value.end
  {
    forall e, groups | p <= e <= |s| && Splits(s[p..e], groups, pat)
      ensures MatchAt(s, p, pat).Some? && e <= MatchAt(s, p, pat).value.end
    {
      MatchAtLongest(s, p, pat, e, groups);
    }
  }

  /** A match: the span `s[start..end]` and its capture groups. */
  datatype Match = Match(start: nat, end: nat, groups: seq<string>)

  /** The search from position `p` on: the match at the first position
      where `MatchAt` finds one. */
  function FindFrom(s: string, p: nat, pat: Pattern): (r: Option<Match>)
    requires p <= |s| && WellFormed(pat)
    ensures r.Some? ==> p <= r.value.start <= r.value.end <= |s| && |r.value.groups| == |pat.fields| + 1
    decreases |s| - p
  {
    match MatchAt(s, p, pat)
    case Some(c) => Some(Match(p, c.end, c.groups))
    case None => if p == |s| then None else FindFrom(s, p + 1, pat)
  }

  /** Positions where nothing matches are passed over. */
  lemma {:induction false} FindFromSkip(s: string, p: nat, q: nat, pat: Pattern)
    requires WellFormed(pat) && p <= q <= |s|
    requires forall k :: p <= k < q ==> MatchAt(s, k, pat).None?
    ensures FindFrom(s, p, pat) == FindFrom(s, q, pat)
    decreases q - p
  {
    if p < q {
      FindFromSkip(s, p + 1, q, pat);
    }
  }

  /** What `FindFrom` finds is a match. */
  lemma {:induction false} FindFromMatches(s: string, p: nat, pat: Pattern)
    requires p <= |s| && WellFormed(pat)
    ensures FindFrom(s, p, pat).Some? ==>
              var m := FindFrom(s, p, pat).value;
              Splits(s[m.start..m.end], m.groups, pat)
    decreases |s| - p
  {
    MatchAtMatches(s, p, pat);
    if MatchAt(s, p, pat).None? && p < |s| {
      FindFromMatches(s, p + 1, pat);
    }
  }

  lemma {:induction false} FindFromFirstLongest(s: string, p: nat, pat: Pattern)
    requires p <= |s| && WellFormed(pat)
    ensures var r := FindFrom(s, p, pat);
            (r.Some? ==> forall q, e, groups :: p <= q < r.value.start && q <= e <= |s| ==>
                           !Splits(s[q..e], groups, pat)) &&
            (r.Some? ==> forall e, groups :: r.value.end < e <= |s| ==>
                           !Splits(s[r.value.start..e], groups, pat)) &&
            (r.None? ==> forall q, e, groups :: p <= q <= e <= |s| ==> !Splits(s[q..e], groups, pat))
    decreases |s| - p
  {
    MatchAtIsLongest(s, p, pat);
    if MatchAt(s, p, pat).None? && p < |s| {
      FindFromFirstLongest(s, p + 1, pat);
    }
  }

  /** The first match of `pat` in `s`, as `String.prototype.match` and
      `replace` with a non-global regular expression find it. */
  function Find(s: string, pat: Pattern): (r: Option<Match>)
    requires WellFormed(pat)
    ensures r.Some? ==> r.value.start <= r.value.end <= |s| && |r.value.groups| == |pat.fields| + 1
  {
    FindFrom(s, 0, pat)
  }

  /** What `Find` finds is a match of the pattern. */
  lemma FindMatches(s: string, pat: Pattern)
    requires WellFormed(pat)
    ensures Find(s, pat).Some? ==>
              var m := Find(s, pat).value;
              Splits(s[m.start..m.end], m.groups, pat)
  {
    FindFromMatches(s, 0, pat);
  }

  /** The first match starts where no earlier position starts a match, and
      no longer match starts there; when there is none, no part of `s`
      matches. For these patterns that is exactly the match JavaScript's
      backtracking order returns. */
  lemma FindFirstLongest(s: string, pat: Pattern)
    requires WellFormed(pat)
    ensures Find(s, pat).Some? ==> forall q, e, groups :: 0 <= q < Find(s, pat).value.start && q <= e <= |s| ==>
                                     !Splits(s[q..e], groups, pat)
    ensures Find(s, pat).Some? ==> forall e, groups :: Find(s, pat).value.end < e <= |s| ==>
                                     !Splits(s[Find(s, pat).value.start..e], groups, pat)
    ensures Find(s, pat).None? ==> forall q, e, groups :: 0 <= q <= e <= |s| ==> !Splits(s[q..e], groups, pat)
  {
    FindFromFirstLongest(s, 0, pat);
  }

  /** A text that matches as a whole is found whole, with its groups. */
  lemma FindWhole(s: string, groups: seq<string>, pat: Pattern)
    requires WellFormed(pat) && Splits(s, groups, pat)
    ensures Find(s, pat) == Some(Match(0, |s|, groups))
  {
    assert s[0..|s|] == s;
    FindFirstLongest(s, pat);
    FindMatches(s, pat);
    var m := Find(s, pat).value;
    SplitsUnique(s[m.start..m.end], m.groups, groups, pat);
  }

  /** The capture groups of a match are determined by the matched text. */
  lemma {:induction false} SplitsUnique(t: string, g1: seq<string>, g2: seq<string>, pat: Pattern)
    requires WellFormed(pat) && Splits(t, g1, pat) && Splits(t, g2, pat)
    ensures g1 == g2
    decreases |pat.fields|
  {
    if pat.fields != [] {
      var k1, k2 := |g1[0]|, |g2[0]|;
      assert FieldOk(pat.fields[0]);
      PrefixDigits(t, k1);
      PrefixDigits(t, k2);
      assert k1 == k2;
      TailWellFormed(pat);
      SplitsUnique(t[k1 + 1..], g1[1..], g2[1..], pat.Tail());
      assert g1 == [g1[0]] + g1[1..];
      assert g2 == [g2[0]] + g2[1..];
    }
  }

  /** Each capture group is a digit run within its field's bounds. */
  lemma {:induction false} SplitsGroups(t: string, groups: seq<string>, pat: Pattern, i: nat)
    requires Splits(t, groups, pat) && i <= |pat.fields|
    ensures i < |pat.fields| ==> pat.fields[i].lo <= |groups[i]| <= pat.fields[i].hi
    ensures i == |pat.fields| ==> pat.lastLo <= |groups[i]| <= pat.lastHi
    ensures IsDigits(groups[i])
    decreases |pat.fields|
  {
    if pat.fields != [] && i > 0 {
      SplitsGroups(t[|groups[0]| + 1..], groups[1..], pat.Tail(), i - 1);
      assert groups[1..][i - 1] == groups[i];
    }
  }

  /** Every capture group occurs in the matched text. */
  lemma {:induction false} SplitsGroupOccurs(t: string, groups: seq<string>, pat: Pattern, i: nat)
    requires Splits(t, groups, pat) && i <= |pat.fields|
    ensures exists j: nat :: OccursAt(t, groups[i], j)
    decreases |pat.fields|
  {
    if pat.fields == [] || i == 0 {
      assert t[0..|groups[0]|] == groups[0];
      assert OccursAt(t, groups[0], 0);
    } else {
      var k := |groups[0]| + 1;
      SplitsGroupOccurs(t[k..], groups[1..], pat.Tail(), i - 1);
      var j: nat :| OccursAt(t[k..], groups[1..][i - 1], j);
      SliceOfSuffix(t, k, j, j + |groups[i]|);
      assert OccursAt(t, groups[i], k + j);
    }
  }

  /** Each capture group of the first match is a run of digits of `s`. */
  lemma FoundGroupInText(s: string, pat: Pattern, i: nat)
    requires WellFormed(pat) && i <= |pat.fields|
    ensures Find(s, pat).Some? ==> exists j: nat :: DigitsAt(s, j, |Find(s, pat).value.groups[i]|)
  {
    if Find(s, pat).Some? {
      FindMatches(s, pat);
      var m := Find(s, pat).value;
      var t := s[m.start..m.end];
      SplitsGroupOccurs(t, m.groups, pat, i);
      SplitsGroups(t, m.groups, pat, i);
      var j: nat :| OccursAt(t, m.groups[i], j);
      SliceOfSlice(s, m.start, m.end, j, j + |m.groups[i]|);
      assert DigitsAt(s, m.start + j, |m.groups[i]|);
    }
  }

  /** A first match holds a separator of the pattern's first field. */
  lemma FoundSeparatorInText(s: string, pat: Pattern)
    requires WellFormed(pat) && pat.fields != []
    ensures Find(s, pat).Some? ==> exists j :: 0 <= j < |s| && s[j] in pat.fields[0].seps
  {
    if Find(s, pat).Some? {
      FindMatches(s, pat);
      var m := Find(s, pat).value;
      var k := |m.groups[0]|;
      assert s[m.start..m.end][k] == s[m.start + k];
    }
  }
}
