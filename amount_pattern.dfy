/** The amount regular expression of the statement parser,
    `[\$]?([-]?\d{1,3}(?:,\d{3})*(?:\.\d{2})?)`, and the value that
    `parseFloat` gives its capture group once the commas are removed, kept
    exactly as a whole number of cents. */
module AmountPattern {
  import opened Text
  import opened FieldPatterns

  // ------------------------------------------------- the language matched

  /** `(?:\.\d{2})?` */
  predicate IsFraction(t: string) {
    t == [] || (|t| == 3 && t[0] == '.' && IsDigits(t[1..]))
  }

  /** `(?:,\d{3})*(?:\.\d{2})?` */
  predicate IsGroupsThenFraction(t: string)
    decreases |t|
  {
    IsFraction(t) || (|t| >= 4 && t[0] == ',' && IsDigits(t[1..4]) && IsGroupsThenFraction(t[4..]))
  }

  /** `\d{1,3}(?:,\d{3})*(?:\.\d{2})?` */
  ghost predicate IsNumber(t: string) {
    exists k :: 1 <= k <= 3 && k <= |t| && IsDigits(t[..k]) && IsGroupsThenFraction(t[k..])
  }

  /** `[-]?\d{1,3}(?:,\d{3})*(?:\.\d{2})?`, the capture group. */
  ghost predicate IsSignedNumber(t: string) {
    IsNumber(t) || (|t| > 0 && t[0] == '-' && IsNumber(t[1..]))
  }

  /** The whole pattern. */
  ghost predicate IsAmountToken(t: string) {
    IsSignedNumber(t) || (|t| > 0 && t[0] == '$' && IsSignedNumber(t[1..]))
  }

  // ------------------------------------------------------------ the value

  /** `parseFloat` of a numeral `-?\d+(\.\d\d)?`, in hundredths. */
  function DecimalCents(x: string): int {
    if |x| > 0 && x[0] == '-' then -(UnsignedCents(x[1..]) as int) else UnsignedCents(x)
  }

  function UnsignedCents(x: string): nat {
    if |x| >= 3 && x[|x| - 3] == '.' then DecimalValue(x[..|x| - 3]) * 100 + DecimalValue(x[|x| - 2..])
    else DecimalValue(x) * 100
  }

  /** The amount a capture group stands for: `parseFloat(group.replace(/,/g, ''))`. */
  function Cents(group: string): int {
    DecimalCents(StripCommas(group))
  }

  // ---------------------------------------------------------- the matcher

  /** End of the longest run of `,ddd` groups from `g`: the run is whole
      groups, and no further group follows it. */
  function GroupsEnd(s: string, g: nat): (e: nat)
    requires g <= |s|
    ensures g <= e <= |s| && (e - g) % 4 == 0
    ensures forall k :: g <= k < e && (k - g) % 4 == 0 ==> s[k] == ',' && IsDigits(s[k + 1..k + 4])
    ensures !(e + 4 <= |s| && s[e] == ',' && IsDigits(s[e + 1..e + 4]))
    decreases |s| - g
  {
    if g + 4 <= |s| && s[g] == ',' && IsDigits(s[g + 1..g + 4]) then GroupsEnd(s, g + 4) else g
  }

  /** End of the optional `.dd` at `g`. */
  function FractionEnd(s: string, g: nat): (e: nat)
    requires g <= |s|
    ensures g <= e <= |s|
  {
    if g + 3 <= |s| && s[g] == '.' && IsDigits(s[g + 1..g + 3]) then g + 3 else g
  }

  /** A match `s[start..end]` whose capture group is `s[group..end]`. */
  datatype AmountMatch = AmountMatch(start: nat, group: nat, end: nat)

  /** The match that starts at `p`, if any. `$` and `-` are taken when present
      (skipping either leaves a character no digit can match), the leading
      digits as far as three, then every `,ddd` group and a `.dd`. */
  function AmountAt(s: string, p: nat): (r: Option<AmountMatch>)
    requires p <= |s|
    ensures r.Some? ==> r.value.start == p && p <= r.value.group < r.value.end <= |s|
    ensures r.Some? ==> r.value.group == (if s[p] == '$' then p + 1 else p)
  {
    var q := SkipOptional(s, p, '$');
    var d := SkipOptional(s, q, '-');
    var n := DigitRun(s, d);
    if n == 0 then None
    else
      Some(AmountMatch(p, q, NumberEnd(s, d)))
  }

  lemma {:induction false} GroupsThenFractionFound(s: string, g: nat)
    requires g <= |s|
    ensures IsGroupsThenFraction(s[g..FractionEnd(s, GroupsEnd(s, g))])
    decreases |s| - g
  {
    var e := FractionEnd(s, GroupsEnd(s, g));
    if g + 4 <= |s| && s[g] == ',' && IsDigits(s[g + 1..g + 4]) {
      GroupsThenFractionFound(s, g + 4);
      assert s[g..e][1..4] == s[g + 1..g + 4];
      assert s[g..e][4..] == s[g + 4..e];
    } else {
      assert e > g ==> s[g..e][1..] == s[g + 1..g + 3];
    }
  }

  lemma {:induction false} GroupsThenFractionLongest(s: string, g: nat, e: nat)
    requires g <= e <= |s| && IsGroupsThenFraction(s[g..e])
    ensures e <= FractionEnd(s, GroupsEnd(s, g))
    decreases |s| - g
  {
    var t := s[g..e];
    if IsFraction(t) {
      if t != [] {
        SliceOfSlice(s, g, e, 1, 3);
      }
    } else {
      assert |t| >= 4 && t[0] == ',' && IsDigits(t[1..4]) && IsGroupsThenFraction(t[4..]);
      SliceOfSlice(s, g, e, 1, 4);
      SliceOfSlice(s, g, e, 4, e - g);
      GroupsThenFractionLongest(s, g + 4, e);
    }
  }

  /** A nonempty `(?:,\d{3})*(?:\.\d{2})?` starts with `,` or `.`, never a digit. */
  lemma GroupsThenFractionStart(t: string)
    requires IsGroupsThenFraction(t)
    ensures t != [] ==> t[0] == '.' || t[0] == ','
  {
  }

  lemma NumberStartsWithDigit(t: string)
    requires IsNumber(t)
    ensures |t| > 0 && IsDigit(t[0])
  {
    var k :| 1 <= k <= 3 && k <= |t| && IsDigits(t[..k]) && IsGroupsThenFraction(t[k..]);
    assert t[..k][0] == t[0];
  }

  /** Where the digits `\d{1,3}(?:,\d{3})*(?:\.\d{2})?` that start at `d` end. */
  function NumberEnd(s: string, d: nat): (e: nat)
    requires d <= |s|
    ensures d <= e <= |s|
  {
    FractionEnd(s, GroupsEnd(s, d + Min(DigitRun(s, d), 3)))
  }

  lemma NumberFound(s: string, d: nat)
    requires d <= |s| && DigitRun(s, d) >= 1
    ensures IsNumber(s[d..NumberEnd(s, d)])
  {
    var e := NumberEnd(s, d);
    var k := Min(DigitRun(s, d), 3);
    GroupsThenFractionFound(s, d + k);
    DigitRunDigits(s, d);
    DigitsSubslice(s, d, DigitRun(s, d), k);
    SliceOfSlice(s, d, e, 0, k);
    SliceOfSlice(s, d, e, k, e - d);
    var t := s[d..e];
    assert t[..k] == t[0..k];
    assert t[k..] == t[k..e - d];
    assert IsDigits(t[..k]) && IsGroupsThenFraction(t[k..]);
  }

  lemma SignedFound(s: string, q: nat)
    requires q <= |s| && DigitRun(s, SkipOptional(s, q, '-')) >= 1
    ensures IsSignedNumber(s[q..NumberEnd(s, SkipOptional(s, q, '-'))])
  {
    var d := SkipOptional(s, q, '-');
    var e := NumberEnd(s, d);
    NumberFound(s, d);
    if d == q + 1 {
      SliceOfSlice(s, q, e, 1, e - q);
      assert s[q..e][1..] == s[q..e][1..e - q];
    }
  }

  lemma AmountAtFound(s: string, p: nat)
    requires p <= |s| && AmountAt(s, p).Some?
    ensures IsAmountToken(s[p..AmountAt(s, p).value.end])
    ensures IsSignedNumber(s[AmountAt(s, p).value.group..AmountAt(s, p).value.end])
  {
    var q := SkipOptional(s, p, '$');
    var e := NumberEnd(s, SkipOptional(s, q, '-'));
    SignedFound(s, q);
    if q == p + 1 {
      SliceOfSlice(s, p, e, 1, e - p);
      assert s[p..e][1..] == s[p..e][1..e - p];
    }
  }

  /** Past an optional `c` at `p`: where the capture group of a match
      begins (`c` is `$`), or where the digits of a capture group begin (`c`
      is `-`). */
  function SkipOptional(s: string, p: nat, c: char): (q: nat)
    requires p <= |s|
    ensures p <= q <= p + 1 && q <= |s|
    ensures q == p + 1 <==> p < |s| && s[p] == c
  {
    if p < |s| && s[p] == c then p + 1 else p
  }

  lemma TokenHasGroup(s: string, p: nat, e: nat)
    requires p <= e <= |s| && IsAmountToken(s[p..e])
    ensures SkipOptional(s, p, '$') <= e && IsSignedNumber(s[SkipOptional(s, p, '$')..e])
  {
    var q := SkipOptional(s, p, '$');
    if q == p + 1 {
      if IsNumber(s[p..e]) {
        NumberStartsWithDigit(s[p..e]);
      }
      assert s[p..e][1..] == s[q..e];
    }
  }

  lemma GroupHasNumber(s: string, q: nat, e: nat)
    requires q <= e <= |s| && IsSignedNumber(s[q..e])
    ensures SkipOptional(s, q, '-') <= e && IsNumber(s[SkipOptional(s, q, '-')..e])
  {
    var d := SkipOptional(s, q, '-');
    if d == q + 1 {
      if IsNumber(s[q..e]) {
        NumberStartsWithDigit(s[q..e]);
      }
      assert s[q..e][1..] == s[d..e];
    }
  }

  /** Where the one to three leading digits of a number in `s[d..e]` end. */
  lemma NumberSplit(s: string, d: nat, e: nat) returns (k: nat)
    requires d <= e <= |s| && IsNumber(s[d..e])
    ensures 1 <= k <= 3 && d + k <= e
    ensures IsDigits(s[d..d + k]) && IsGroupsThenFraction(s[d + k..e])
  {
    var t := s[d..e];
    k :| 1 <= k <= 3 && k <= |t| && IsDigits(t[..k]) && IsGroupsThenFraction(t[k..]);
    SliceOfSlice(s, d, e, 0, k);
    SliceOfSlice(s, d, e, k, e - d);
    assert t[..k] == s[d..d + k] by { assert t[..k] == t[0..k]; }
    assert t[k..] == s[d + k..e] by { assert t[k..] == t[k..e - d]; }
  }

  lemma NumberLongest(s: string, d: nat, e: nat)
    requires d <= e <= |s| && IsNumber(s[d..e])
    ensures DigitRun(s, d) >= 1 && e <= NumberEnd(s, d)
  {
    hide GroupsEnd, FractionEnd, IsNumber, IsDigits, IsGroupsThenFraction;
    var k := NumberSplit(s, d, e);
    DigitRunAtLeast(s, d, k);
    var n := DigitRun(s, d);
    if k == Min(n, 3) {
      GroupsThenFractionLongest(s, d + k, e);
    } else {
      DigitRunMeaning(s, d);
      DigitEndsGroups(s, d + k, e);
    }
  }

  /** `(?:,\d{3})*(?:\.\d{2})?` matches nothing but the empty text before a
      digit. */
  lemma DigitEndsGroups(s: string, g: nat, e: nat)
    requires g <= e <= |s| && IsGroupsThenFraction(s[g..e])
    requires g < |s| && IsDigit(s[g])
    ensures e == g
  {
    if e > g {
      GroupsThenFractionStart(s[g..e]);
    }
  }

  /** Every match that starts at `p` is found by `AmountAt`, and ends no later. */
  lemma AmountAtLongest(s: string, p: nat, e: nat)
    requires p <= e <= |s| && IsAmountToken(s[p..e])
    ensures AmountAt(s, p).Some? && e <= AmountAt(s, p).value.end
  {
    TokenHasGroup(s, p, e);
    GroupHasNumber(s, SkipOptional(s, p, '$'), e);
    NumberLongest(s, SkipOptional(s, SkipOptional(s, p, '$'), '-'), e);
  }

  /** The search from position `p` on: the match at the first position
      where `AmountAt` finds one. */
  function FindAmountFrom(s: string, p: nat): (r: Option<AmountMatch>)
    requires p <= |s|
    ensures r.Some? ==> var m := r.value;
      p <= m.start <= m.group < m.end <= |s| && m.group == (if s[m.start] == '$' then m.start + 1 else m.start)
    decreases |s| - p
  {
    match AmountAt(s, p)
    case Some(m) => Some(m)
    case None => if p == |s| then None else FindAmountFrom(s, p + 1)
  }

  /** The search returns the match that starts where it stopped. */
  lemma {:induction false} FindAmountFromIs(s: string, p: nat)
    requires p <= |s|
    ensures FindAmountFrom(s, p).Some? ==> FindAmountFrom(s, p) == AmountAt(s, FindAmountFrom(s, p).value.start)
    decreases |s| - p
  {
    if AmountAt(s, p).None? && p < |s| {
      FindAmountFromIs(s, p + 1);
    }
  }

  /** No match starts before the one the search returns. */
  lemma {:induction false} FindAmountFromFirst(s: string, p: nat)
    requires p <= |s|
    ensures FindAmountFrom(s, p).Some? ==> forall q :: p <= q < FindAmountFrom(s, p).value.start ==> AmountAt(s, q).None?
    ensures FindAmountFrom(s, p).None? ==> forall q :: p <= q <= |s| ==> AmountAt(s, q).None?
    decreases |s| - p
  {
    hide AmountAt;
    if AmountAt(s, p).None? && p < |s| {
      FindAmountFromFirst(s, p + 1);
      assert FindAmountFrom(s, p) == FindAmountFrom(s, p + 1);
    }
  }

  /** `line.match(amountPattern)`: the match at the first position where one
      starts; its capture group leaves out a leading `$`. */
  function FindAmount(s: string): (r: Option<AmountMatch>)
    ensures r.Some? ==> var m := r.value;
      m.start <= m.group < m.end <= |s| &&
      m.group == (if s[m.start] == '$' then m.start + 1 else m.start)
  {
    FindAmountFrom(s, 0)
  }

  /** What `FindAmount` finds is an amount, and its capture group a signed number. */
  lemma FindAmountMatches(s: string)
    ensures FindAmount(s).Some? ==> var m := FindAmount(s).value;
              IsAmountToken(s[m.start..m.end]) && IsSignedNumber(s[m.group..m.end])
  {
    if FindAmount(s).Some? {
      FindAmountFromIs(s, 0);
      AmountAtFound(s, FindAmount(s).value.start);
    }
  }

  /** The match found is the leftmost, and there the longest, which is the
      one the regular expression's backtracking order returns; when there is
      none, no part of `s` is an amount. */
  lemma FindAmountFirstLongest(s: string)
    ensures FindAmount(s).Some? ==> forall q, e :: 0 <= q < FindAmount(s).value.start && q <= e <= |s| ==>
                                      !IsAmountToken(s[q..e])
    ensures FindAmount(s).Some? ==> forall e :: FindAmount(s).value.end < e <= |s| ==>
                                      !IsAmountToken(s[FindAmount(s).value.start..e])
    ensures FindAmount(s).None? ==> forall q, e :: 0 <= q <= e <= |s| ==> !IsAmountToken(s[q..e])
  {
    FindAmountFromFirst(s, 0);
    FindAmountFromIs(s, 0);
    forall q, e | 0 <= q <= e <= |s| && IsAmountToken(s[q..e])
      ensures AmountAt(s, q).Some? && e <= AmountAt(s, q).value.end
    {
      AmountAtLongest(s, q, e);
    }
  }

  // ------------------------------------------------- what a match is worth

  lemma DigitsHaveNoComma(s: string)
    requires IsDigits(s)
    ensures StripCommas(s) == s
  {
    assert forall k :: 0 <= k < |s| ==> s[k] != ',';
  }

  /** Without its commas, `(?:,\d{3})*(?:\.\d{2})?` is digits followed by
      the fraction; there are no digits when there are no commas. */
  lemma {:induction false} GroupsThenFractionParts(g: string) returns (d: string, f: string)
    requires IsGroupsThenFraction(g)
    ensures StripCommas(g) == d + f && IsDigits(d) && IsFraction(f)
    ensures ',' !in g ==> d == []
    decreases |g|
  {
    if IsFraction(g) {
      if g != [] {
        DigitsHaveNoComma(g[1..]);
        assert g == [g[0]] + g[1..];
        StripCommasAppend([g[0]], g[1..]);
      }
      d, f := [], g;
    } else {
      var d', f' := GroupsThenFractionParts(g[4..]);
      assert g == [','] + g[1..4] + g[4..];
      StripCommasAppend([','] + g[1..4], g[4..]);
      StripCommasAppend([','], g[1..4]);
      DigitsHaveNoComma(g[1..4]);
      d, f := g[1..4] + d', f';
    }
  }

  /** Without its commas, an unsigned number is its integer digits followed
      by the fraction; with no comma there are at most three of them. */
  lemma NumberParts(n: string) returns (d: string, f: string)
    requires IsNumber(n)
    ensures StripCommas(n) == d + f && IsDigits(d) && |d| >= 1 && IsFraction(f)
    ensures ',' !in n ==> |d| <= 3
  {
    var k :| 1 <= k <= 3 && k <= |n| && IsDigits(n[..k]) && IsGroupsThenFraction(n[k..]);
    d, f := NumberPartsAt(n, k);
  }

  lemma NumberPartsAt(n: string, k: nat) returns (d: string, f: string)
    requires 1 <= k <= 3 && k <= |n| && IsDigits(n[..k]) && IsGroupsThenFraction(n[k..])
    ensures StripCommas(n) == d + f && IsDigits(d) && |d| >= 1 && IsFraction(f)
    ensures ',' !in n ==> |d| <= 3
  {
    var d', f' := GroupsThenFractionParts(n[k..]);
    SuffixHasNoComma(n, k);
    PrefixAndRest(n, k, d', f');
    hide StripCommas, IsDigits, IsFraction, IsGroupsThenFraction;
    var a := n[..k];
    assert a + (d' + f') == (a + d') + f';
    d, f := a + d', f';
  }

  lemma SuffixHasNoComma(n: string, k: nat)
    requires k <= |n|
    ensures ',' !in n ==> ',' !in n[k..]
  {
    assert forall j :: 0 <= j < |n[k..]| ==> n[k..][j] == n[k + j];
  }

  lemma PrefixAndRest(n: string, k: nat, d: string, f: string)
    requires k <= |n| && IsDigits(n[..k]) && StripCommas(n[k..]) == d + f && IsDigits(d)
    ensures StripCommas(n) == n[..k] + (d + f)
    ensures IsDigits(n[..k] + d)
  {
    DigitsPrefixKept(n, k);
    DigitsAppend(n[..k], d);
  }

  lemma DigitsPrefixKept(n: string, k: nat)
    requires k <= |n| && IsDigits(n[..k])
    ensures StripCommas(n) == n[..k] + StripCommas(n[k..])
  {
    assert n == n[..k] + n[k..];
    StripCommasAppend(n[..k], n[k..]);
    DigitsHaveNoComma(n[..k]);
  }

  lemma DigitsAppend(a: string, b: string)
    requires IsDigits(a) && IsDigits(b)
    ensures IsDigits(a + b)
  {
    assert forall j :: 0 <= j < |a + b| ==> (a + b)[j] == if j < |a| then a[j] else b[j - |a|];
  }

  /** The cents of an integer part and a fraction. */
  lemma UnsignedCentsParts(d: string, f: string)
    requires IsDigits(d) && |d| >= 1 && IsFraction(f)
    ensures UnsignedCents(d + f) == DecimalValue(d) * 100 + (if f == [] then 0 else DecimalValue(f[1..]))
  {
    var x := d + f;
    if f == [] {
      assert x == d;
      assert |x| >= 3 ==> IsDigit(x[|x| - 3]);
    } else {
      assert x[|x| - 3] == '.';
      assert x[..|x| - 3] == d;
      assert x[|x| - 2..] == f[1..];
    }
  }

  /** The sign and the unsigned number a capture group is made of. */
  lemma SignedParts(t: string) returns (neg: bool, d: string, f: string)
    requires IsSignedNumber(t)
    ensures IsDigits(d) && |d| >= 1 && IsFraction(f)
    ensures neg <==> t[0] == '-'
    ensures ',' !in t ==> |d| <= 3
    ensures ZeroDigits(t) <==> ZeroDigits(d + f)
    ensures Cents(t) == (if neg then -1 else 1) * UnsignedCents(d + f)
  {
    if IsNumber(t) {
      NumberStartsWithDigit(t);
      neg := false;
      d, f := UnsignedParts(t);
    } else {
      neg := true;
      d, f := MinusParts(t);
    }
  }

  lemma UnsignedParts(t: string) returns (d: string, f: string)
    requires IsNumber(t)
    ensures IsDigits(d) && |d| >= 1 && IsFraction(f)
    ensures ',' !in t ==> |d| <= 3
    ensures ZeroDigits(t) <==> ZeroDigits(d + f)
    ensures Cents(t) == UnsignedCents(d + f)
  {
    d, f := NumberParts(t);
    StripCommasZeroDigits(t);
    hide UnsignedCents, ZeroDigits, IsDigits, IsFraction;
    assert (d + f)[0] == d[0];
  }

  lemma MinusParts(t: string) returns (d: string, f: string)
    requires |t| > 0 && t[0] == '-' && IsNumber(t[1..])
    ensures IsDigits(d) && |d| >= 1 && IsFraction(f)
    ensures ',' !in t ==> |d| <= 3
    ensures ZeroDigits(t) <==> ZeroDigits(d + f)
    ensures Cents(t) == -(UnsignedCents(d + f) as int)
  {
    var n := t[1..];
    d, f := NumberParts(n);
    assert t == "-" + n;
    StripCommasAppend("-", n);
    StripCommasZeroDigits(n);
    ZeroDigitsAppend("-", n);
    assert StripCommas("-") == "-" by { assert "-"[1..] == []; }
    SuffixHasNoComma(t, 1);
    hide UnsignedCents, ZeroDigits, IsDigits, IsFraction, StripCommas;
    var x := StripCommas(t);
    assert x == "-" + (d + f);
    assert x[1..] == d + f;
  }

  /** An amount is negative exactly when its capture group starts with a
      minus sign and is not zero. */
  lemma CentsSign(t: string)
    requires IsSignedNumber(t)
    ensures |t| > 0
    ensures Cents(t) < 0 <==> t[0] == '-' && Cents(t) != 0
  {
    var neg, d, f := SignedParts(t);
  }

  /** An amount is zero exactly when every digit of its capture group is a
      zero, whatever its sign, commas and fraction. */
  lemma CentsZero(t: string)
    requires IsSignedNumber(t)
    ensures Cents(t) == 0 <==> ZeroDigits(t)
  {
    var neg, d, f := SignedParts(t);
    UnsignedCentsParts(d, f);
    DecimalValueZero(d);
    ZeroDigitsAppend(d, f);
    if f != [] {
      DecimalValueZero(f[1..]);
      assert f == "." + f[1..];
      ZeroDigitsAppend(".", f[1..]);
    }
  }

  /** Thousands separators do not change an amount: `parseFloat` sees the
      text with them removed. */
  lemma CentsIgnoresComma(a: string, b: string)
    ensures Cents(a + "," + b) == Cents(a + b)
  {
    StripCommasAppend(a + ",", b);
    StripCommasAppend(a, ",");
    StripCommasAppend(a, b);
    assert ","[1..] == [];
    assert StripCommas(",") == [];
    assert StripCommas(a + ",") == StripCommas(a);
    assert StripCommas(a + "," + b) == StripCommas(a + b);
  }

  /** A capture group without a comma has at most three integer digits, so
      it is worth less than 1000 (100000 cents) either way. */
  lemma CentsWithoutComma(t: string)
    requires IsSignedNumber(t) && ',' !in t
    ensures -100000 < Cents(t) < 100000
  {
    var neg, d, f := SignedParts(t);
    UnsignedCentsParts(d, f);
    var whole := DecimalValue(d);
    var frac := if f == [] then 0 else DecimalValue(f[1..]);
    assert whole < 1000 by {
      assert Pow10(1) == 10 && Pow10(2) == 100 && Pow10(3) == 1000;
    }
    assert frac < 100 by {
      assert Pow10(2) == 100;
    }
    assert UnsignedCents(d + f) == whole * 100 + frac;
  }
}
