/** `parseDate` of the statement parser: four date formats tried in a fixed
    order, each one's first match rearranged into `YYYY-MM-DD`, the first
    rearrangement the date constructor accepts being the result. */
module Dates {
  import opened Text
  import opened FieldPatterns

  /** A date regular expression, and whether it lists the year first. */
  datatype DateFormat = DateFormat(pattern: Pattern, yearFirst: bool)

  /** `(\d{1,2})\/(\d{1,2})\/(\d{4})`, month / day / year. */
  const MDY_SLASH_LONG := DateFormat(Pattern([Field(1, 2, {'/'}), Field(1, 2, {'/'})], 4, 4), false)
  /** `(\d{1,2})\/(\d{1,2})\/(\d{2})`, month / day / two-digit year. */
  const MDY_SLASH_SHORT := DateFormat(Pattern([Field(1, 2, {'/'}), Field(1, 2, {'/'})], 2, 2), false)
  /** `(\d{4})-(\d{1,2})-(\d{1,2})`, year - month - day. */
  const YMD_DASH := DateFormat(Pattern([Field(4, 4, {'-'}), Field(1, 2, {'-'})], 1, 2), true)
  /** `(\d{1,2})-(\d{1,2})-(\d{4})`, month - day - year. */
  const MDY_DASH := DateFormat(Pattern([Field(1, 2, {'-'}), Field(1, 2, {'-'})], 4, 4), false)

  /** The formats in the order `parseDate` tries them. */
  const FORMATS := [MDY_SLASH_LONG, MDY_SLASH_SHORT, YMD_DASH, MDY_DASH]

  /** What the rearrangement needs of a format: three capture groups, the
      year four digits (or two, to be put in this century), month and day at
      most two. */
  predicate FormatOk(fmt: DateFormat) {
    var pat := fmt.pattern;
    WellFormed(pat) && |pat.fields| == 2 && pat.fields[1].hi <= 2 &&
    if fmt.yearFirst then pat.fields[0].lo == pat.fields[0].hi == 4 && pat.lastHi <= 2
    else pat.fields[0].hi <= 2 && pat.lastLo == pat.lastHi && (pat.lastHi == 4 || pat.lastHi == 2)
  }

  /** The `i`th format tried. */
  function FormatAt(i: nat): (fmt: DateFormat)
    requires i < |FORMATS|
    ensures FormatOk(fmt)
  {
    assert FormatOk(MDY_SLASH_LONG) && FormatOk(MDY_SLASH_SHORT) && FormatOk(YMD_DASH) && FormatOk(MDY_DASH);
    FORMATS[i]
  }

  // ------------------------------------------------------------- the shape

  /** `^\d{4}-\d{2}-\d{2}$`, the date shape a transaction must have. */
  predicate IsIsoDate(d: string) {
    |d| == 10 && IsDigits(d[..4]) && d[4] == '-' && IsDigits(d[5..7]) && d[7] == '-' && IsDigits(d[8..])
  }

  function Year(d: string): string requires IsIsoDate(d) { d[..4] }
  function Month(d: string): string requires IsIsoDate(d) { d[5..7] }
  function Day(d: string): string requires IsIsoDate(d) { d[8..] }

  /** `${year}-${month}-${day}` */
  function Iso(year: string, month: string, day: string): (d: string)
    requires |year| == 4 && |month| == 2 && |day| == 2
    requires IsDigits(year) && IsDigits(month) && IsDigits(day)
    ensures IsIsoDate(d) && Year(d) == year && Month(d) == month && Day(d) == day
  {
    var d := year + "-" + month + "-" + day;
    assert d[..4] == year && d[5..7] == month && d[8..] == day;
    d
  }

  /** An ISO date is put back together from its parts. */
  lemma IsoParts(d: string)
    requires IsIsoDate(d)
    ensures Iso(Year(d), Month(d), Day(d)) == d
  {
    assert d == d[..4] + "-" + d[5..7] + "-" + d[8..];
  }

  /** The number a two-digit field denotes. */
  function TwoDigitValue(t: string): (n: nat)
    requires |t| == 2
    ensures n < 100
  {
    DigitValue(t[0]) * 10 + DigitValue(t[1])
  }

  /** The `new Date(...)` check on `YYYY-MM-DD`: the engine rejects a month
      outside 01..12 or a day outside 01..31. */
  predicate Accepted(month: string, day: string)
    requires |month| == 2 && |day| == 2
  {
    1 <= TwoDigitValue(month) <= 12 && 1 <= TwoDigitValue(day) <= 31
  }

  // ------------------------------------------------------- the components

  /** `padStart(2, '0')` */
  function PadStart2(s: string): (r: string)
    ensures |s| <= 2 ==> |r| == 2
    ensures IsDigits(s) ==> IsDigits(r)
    ensures |s| >= 2 ==> r == s
  {
    if |s| >= 2 then s else if |s| == 1 then ['0'] + s else "00"
  }

  /** Zero-padding keeps the number a field denotes. */
  lemma PadStart2Value(s: string)
    requires 1 <= |s| <= 2
    ensures TwoDigitValue(PadStart2(s)) == DecimalValue(s)
  {
    var r := PadStart2(s);
    if |s| == 1 {
      assert DecimalValue(s) == DecimalValue(s[..0]) * 10 + DigitValue(s[0]);
      assert r[0] == '0' && r[1] == s[0];
    } else {
      var h := s[..1];
      assert DecimalValue(s) == DecimalValue(h) * 10 + DigitValue(s[1]);
      assert DecimalValue(h) == DecimalValue(h[..0]) * 10 + DigitValue(h[0]);
    }
  }

  /** The year as written: a two-digit year is taken to be in 20YY. */
  function FullYear(y: string): (r: string)
    ensures |y| == 2 ==> |r| == 4 && r[2..] == y
    ensures |y| != 2 ==> r == y
    ensures IsDigits(y) ==> IsDigits(r)
  {
    if |y| == 2 then "20" + y else y
  }

  /** A two-digit year is read as one in 2000..2099. */
  lemma FullYearValue(y: string)
    requires |y| == 2
    ensures DecimalValue(FullYear(y)) == 2000 + DecimalValue(y)
  {
    DecimalValueAppend("20", y);
    assert "20"[..1] == "2";
    assert DecimalValue("20") == 20;
    assert Pow10(2) == 100;
  }

  function YearGroup(fmt: DateFormat): nat { if fmt.yearFirst then 0 else 2 }
  function MonthGroup(fmt: DateFormat): nat { if fmt.yearFirst then 1 else 0 }
  function DayGroup(fmt: DateFormat): nat { if fmt.yearFirst then 2 else 1 }

  /** Two digits denote the number `TwoDigitValue` gives them. */
  lemma TwoDigitDecimal(t: string)
    requires |t| == 2
    ensures DecimalValue(t) == TwoDigitValue(t)
  {
    assert t[..1][..0] == [];
  }

  /** The groups a format captures, lengths as its pattern allows. */
  predicate GroupsFit(g: seq<string>, fmt: DateFormat)
    requires FormatOk(fmt)
  {
    && |g| == 3
    && (forall i :: 0 <= i < 3 ==> IsDigits(g[i]))
    && (forall i :: 0 <= i < 2 ==> fmt.pattern.fields[i].lo <= |g[i]| <= fmt.pattern.fields[i].hi)
    && fmt.pattern.lastLo <= |g[2]| <= fmt.pattern.lastHi
  }

  /** What `Iso` needs of the rearranged groups. */
  predicate ComponentsFit(g: seq<string>, fmt: DateFormat)
    requires |g| == 3
  {
    var y := FullYear(g[YearGroup(fmt)]); var month := PadStart2(g[MonthGroup(fmt)]); var day := PadStart2(g[DayGroup(fmt)]);
    |y| == 4 && |month| == 2 && |day| == 2 && IsDigits(y) && IsDigits(month) && IsDigits(day)
  }

  /** Padding the month and the day and completing the year keep the
      numbers the groups denote, but for the century a two-digit year
      gains. */
  lemma ComponentsValue(g: seq<string>, fmt: DateFormat)
    requires FormatOk(fmt) && GroupsFit(g, fmt)
    ensures var y := g[YearGroup(fmt)]; var month := PadStart2(g[MonthGroup(fmt)]); var day := PadStart2(g[DayGroup(fmt)]);
            && |FullYear(y)| == 4 && |month| == 2 && |day| == 2
            && IsDigits(FullYear(y)) && IsDigits(month) && IsDigits(day)
            && DecimalValue(FullYear(y)) == DecimalValue(y) + (if |y| == 2 then 2000 else 0)
            && TwoDigitValue(month) == DecimalValue(month) == DecimalValue(g[MonthGroup(fmt)])
            && TwoDigitValue(day) == DecimalValue(day) == DecimalValue(g[DayGroup(fmt)])
  {
    var y := g[YearGroup(fmt)];
    var month := PadStart2(g[MonthGroup(fmt)]);
    var day := PadStart2(g[DayGroup(fmt)]);
    PadStart2Value(g[MonthGroup(fmt)]);
    PadStart2Value(g[DayGroup(fmt)]);
    TwoDigitDecimal(month);
    TwoDigitDecimal(day);
    if |y| == 2 {
      FullYearValue(y);
    }
  }

  /** The groups of one match rearranged into `YYYY-MM-DD`, if the date
      constructor accepts the result: valid exactly when the month group
      denotes 1..12 and the day group 1..31, and keeping the numbers the
      groups denote but for the century a two-digit year gains. */
  function Rearranged(g: seq<string>, fmt: DateFormat): (r: Option<string>)
    requires FormatOk(fmt) && GroupsFit(g, fmt)
    ensures r.Some? ==> IsIsoDate(r.value) && Accepted(Month(r.value), Day(r.value))
    ensures r.Some? <==> 1 <= DecimalValue(g[MonthGroup(fmt)]) <= 12 && 1 <= DecimalValue(g[DayGroup(fmt)]) <= 31
    ensures r.Some? ==>
              && DecimalValue(Year(r.value)) == DecimalValue(g[YearGroup(fmt)]) + (if |g[YearGroup(fmt)]| == 2 then 2000 else 0)
              && DecimalValue(Month(r.value)) == DecimalValue(g[MonthGroup(fmt)])
              && DecimalValue(Day(r.value)) == DecimalValue(g[DayGroup(fmt)])
  {
    ComponentsValue(g, fmt);
    var year := FullYear(g[YearGroup(fmt)]);
    var month := PadStart2(g[MonthGroup(fmt)]);
    var day := PadStart2(g[DayGroup(fmt)]);
    if Accepted(month, day) then Some(Iso(year, month, day)) else None
  }

  lemma RearrangedIs(g: seq<string>, fmt: DateFormat)
    requires FormatOk(fmt) && GroupsFit(g, fmt)
    requires 1 <= DecimalValue(g[MonthGroup(fmt)]) <= 12 && 1 <= DecimalValue(g[DayGroup(fmt)]) <= 31
    ensures ComponentsFit(g, fmt)
    ensures Rearranged(g, fmt) == Some(Iso(FullYear(g[YearGroup(fmt)]), PadStart2(g[MonthGroup(fmt)]), PadStart2(g[DayGroup(fmt)])))
  {
    ComponentsValue(g, fmt);
  }

  /** What one format makes of `s`: its first match, rearranged. */
  function Candidate(s: string, fmt: DateFormat): (r: Option<string>)
    requires FormatOk(fmt)
    ensures r.Some? ==> IsIsoDate(r.value) && Accepted(Month(r.value), Day(r.value))
    ensures Find(s, fmt.pattern).None? ==> r.None?
    ensures Find(s, fmt.pattern).Some? ==>
              var g := Find(s, fmt.pattern).value.groups;
              && GroupsFit(g, fmt)
              && (r.Some? <==> 1 <= DecimalValue(g[MonthGroup(fmt)]) <= 12 && 1 <= DecimalValue(g[DayGroup(fmt)]) <= 31)
              && (r.Some? ==>
                    && DecimalValue(Year(r.value)) == DecimalValue(g[YearGroup(fmt)]) + (if |g[YearGroup(fmt)]| == 2 then 2000 else 0)
                    && DecimalValue(Month(r.value)) == DecimalValue(g[MonthGroup(fmt)])
                    && DecimalValue(Day(r.value)) == DecimalValue(g[DayGroup(fmt)]))
  {
    match Find(s, fmt.pattern)
    case None => None
    case Some(m) =>
      FindGroupsFit(s, fmt);
      Rearranged(m.groups, fmt)
  }

  /** The groups of a format's first match have the lengths its pattern
      allows. */
  lemma FindGroupsFit(s: string, fmt: DateFormat)
    requires FormatOk(fmt)
    ensures Find(s, fmt.pattern).Some? ==> GroupsFit(Find(s, fmt.pattern).value.groups, fmt)
  {
    if Find(s, fmt.pattern).Some? {
      var m := Find(s, fmt.pattern).value;
      FindMatches(s, fmt.pattern);
      SplitsGroups(s[m.start..m.end], m.groups, fmt.pattern, 0);
      SplitsGroups(s[m.start..m.end], m.groups, fmt.pattern, 1);
      SplitsGroups(s[m.start..m.end], m.groups, fmt.pattern, 2);
    }
  }

  /** The formats from the `i`th on, tried in order: the index of the first
      one with a candidate, or the number of formats when none has one. */
  function FirstFormat(s: string, i: nat): (r: nat)
    requires i <= |FORMATS|
    ensures i <= r <= |FORMATS|
    ensures r < |FORMATS| ==> Candidate(s, FormatAt(r)).Some?
    ensures forall k :: i <= k < r ==> Candidate(s, FormatAt(k)).None?
    decreases |FORMATS| - i
  {
    if i == |FORMATS| || Candidate(s, FormatAt(i)).Some? then i
    else FirstFormat(s, i + 1)
  }

  /** `parseDate`: the candidate of the first format, in the order of
      `FORMATS`, that has one. */
  function ParseDate(s: string): (r: Option<string>)
    ensures r.Some? ==> IsIsoDate(r.value) && Accepted(Month(r.value), Day(r.value))
  {
    var i := FirstFormat(s, 0);
    if i < |FORMATS| then Candidate(s, FormatAt(i)) else None
  }

  /** `parseDate` gives the candidate of the first format that has one, and
      `None` exactly when no format has one. */
  lemma ParseDateFirst(s: string)
    ensures ParseDate(s).None? <==> forall j :: 0 <= j < |FORMATS| ==> Candidate(s, FormatAt(j)).None?
    ensures forall j :: 0 <= j < |FORMATS| && Candidate(s, FormatAt(j)).Some? &&
                        (forall k :: 0 <= k < j ==> Candidate(s, FormatAt(k)).None?) ==>
                        ParseDate(s) == Candidate(s, FormatAt(j))
  {
    var i := FirstFormat(s, 0);
    forall j | 0 <= j < |FORMATS| && Candidate(s, FormatAt(j)).Some? &&
               (forall k :: 0 <= k < j ==> Candidate(s, FormatAt(k)).None?)
      ensures ParseDate(s) == Candidate(s, FormatAt(j))
    {
      assert i == j;
    }
  }

  /** A date `parseDate` returns is the candidate of some format that
      matched, every earlier format having none; with the contract of
      `Candidate` this gives its year, month and day as the numbers that
      format's groups denote. */
  lemma ParseDateValue(s: string)
    ensures ParseDate(s).Some? ==>
              exists i :: 0 <= i < |FORMATS| && Find(s, FormatAt(i).pattern).Some? &&
                          ParseDate(s) == Candidate(s, FormatAt(i)) &&
                          forall k :: 0 <= k < i ==> Candidate(s, FormatAt(k)).None?
  {
    if ParseDate(s).Some? {
      var i := FirstFormat(s, 0);
      assert Find(s, FormatAt(i).pattern).Some?;
    }
  }

  // --------------------------------------------------------------- lemmas

  lemma IsoDateHasNoSlash(d: string)
    requires IsIsoDate(d)
    ensures forall j :: 0 <= j < |d| ==> d[j] != '/'
  {
    assert d[..4] == d[0..4] && d[8..] == d[8..10];
    DigitsInSlice(d, 0, 4);
    DigitsInSlice(d, 5, 2);
    DigitsInSlice(d, 8, 2);
  }

  /** An ISO date, as a whole, matches the year-first format. */
  lemma IsoDateSplits(d: string)
    requires IsIsoDate(d)
    ensures Splits(d, [Year(d), Month(d), Day(d)], YMD_DASH.pattern)
  {
    var pat := YMD_DASH.pattern;
    var groups := [Year(d), Month(d), Day(d)];
    var rest := d[5..];
    SliceOfSuffix(d, 5, 0, 2);
    assert rest[..2] == rest[0..2];
    SliceOfSuffix(d, 5, 3, 5);
    assert rest[3..] == rest[3..5];
    assert Splits(rest[3..], groups[2..], pat.Tail().Tail());
    assert groups[1..][1..] == groups[2..];
    assert Splits(rest, groups[1..], pat.Tail());
  }

  /** The year-first format finds the whole of an ISO date. */
  lemma IsoDateFound(d: string)
    requires IsIsoDate(d)
    ensures Find(d, YMD_DASH.pattern) == Some(Match(0, 10, [Year(d), Month(d), Day(d)]))
  {
    var pat := YMD_DASH.pattern;
    var groups := [Year(d), Month(d), Day(d)];
    IsoDateSplits(d);
    FindFirstLongest(d, pat);
    FindMatches(d, pat);
    assert d[0..10] == d;
    var m := Find(d, pat).value;
    assert m.start == 0 && m.end == 10;
    SplitsUnique(d[0..10], m.groups, groups, pat);
  }

  /** A date `parseDate` produced is given back unchanged: the slash formats
      find no slash, and the year-first format finds the whole date. */
  lemma ParseDateOfIsoDate(d: string)
    requires IsIsoDate(d) && Accepted(Month(d), Day(d))
    ensures ParseDate(d) == Some(d)
  {
    IsoDateHasNoSlash(d);
    SlashFormatNeedsSlash(d, 0);
    SlashFormatNeedsSlash(d, 1);
    IsoDateFound(d);
    IsoParts(d);
    assert Candidate(d, FormatAt(2)) == Some(d);
    ParseDateFirst(d);
  }

  /** A whole `MM/DD/YYYY` date is read by the first format and comes back
      as `YYYY-MM-DD`. */
  lemma SlashDateParsed(mm: string, dd: string, yyyy: string)
    requires |mm| == 2 && |dd| == 2 && |yyyy| == 4 && IsDigits(mm) && IsDigits(dd) && IsDigits(yyyy)
    requires Accepted(mm, dd)
    ensures ParseDate(mm + "/" + dd + "/" + yyyy) == Some(Iso(yyyy, mm, dd))
  {
    var s := mm + "/" + dd + "/" + yyyy;
    var groups := [mm, dd, yyyy];
    var pat := MDY_SLASH_LONG.pattern;
    assert s[..2] == mm && s[3..][..2] == dd && s[3..][3..] == yyyy;
    assert groups[1..][1..] == [yyyy];
    assert Splits(s[3..][3..], groups[1..][1..], pat.Tail().Tail());
    assert Splits(s[3..], groups[1..], pat.Tail());
    assert Splits(s, groups, pat);
    FindWhole(s, groups, pat);
    assert FormatAt(0) == MDY_SLASH_LONG;
    assert Candidate(s, FormatAt(0)) == Some(Iso(yyyy, mm, dd));
    ParseDateFirst(s);
  }

  /** The slash formats match only where there is a slash. */
  lemma SlashFormatNeedsSlash(s: string, i: nat)
    requires i < 2
    requires forall j :: 0 <= j < |s| ==> s[j] != '/'
    ensures Find(s, FormatAt(i).pattern).None?
  {
    FoundSeparatorInText(s, FormatAt(i).pattern);
  }

  /** The formats with a four-digit year match only where there are four
      digits in a row. */
  lemma FourDigitYearNeeded(s: string, i: nat)
    requires i < 4 && i != 1
    requires forall j: nat :: !DigitsAt(s, j, 4)
    ensures Find(s, FormatAt(i).pattern).None?
  {
    var pat := FormatAt(i).pattern;
    var y := YearGroup(FormatAt(i));
    FoundGroupInText(s, pat, y);
    if Find(s, pat).Some? {
      FindMatches(s, pat);
      var m := Find(s, pat).value;
      SplitsGroups(s[m.start..m.end], m.groups, pat, y);
    }
  }

  /** Without a slash and without four digits in a row no format matches:
      the slash formats need a slash, the others a four-digit year. */
  lemma ParseDateWithoutYear(s: string)
    requires forall j :: 0 <= j < |s| ==> s[j] != '/'
    requires forall j: nat :: !DigitsAt(s, j, 4)
    ensures ParseDate(s) == None
  {
    forall i | 0 <= i < |FORMATS|
      ensures Find(s, FormatAt(i).pattern).None?
    {
      if i < 2 {
        SlashFormatNeedsSlash(s, i);
      } else {
        FourDigitYearNeeded(s, i);
      }
    }
    ParseDateFirst(s);
  }

  /** Each of the three fields of `m/d/yy` has at most two digits, so there
      are never four digits in a row. */
  lemma ShortDateHasNoYear(m: string, d: string, yy: string)
    requires 1 <= |m| <= 2 && 1 <= |d| <= 2 && |yy| == 2
    ensures forall j: nat :: !DigitsAt(m + "/" + d + "/" + yy, j, 4)
  {
    var s := m + "/" + d + "/" + yy;
    assert s[|m|] == '/' && s[|m| + 1 + |d|] == '/';
    forall j: nat
      ensures !DigitsAt(s, j, 4)
    {
      if j + 4 <= |s| {
        var k := if j <= |m| then |m| else |m| + 1 + |d|;
        assert s[j..j + 4][k - j] == s[k] == '/';
      }
    }
  }

  lemma ShortSlashSplits(m: string, d: string, yy: string)
    requires 1 <= |m| <= 2 && 1 <= |d| <= 2 && |yy| == 2 && IsDigits(m) && IsDigits(d) && IsDigits(yy)
    ensures Splits(m + "/" + d + "/" + yy, [m, d, yy], MDY_SLASH_SHORT.pattern)
  {
    var s := m + "/" + d + "/" + yy;
    var groups := [m, d, yy];
    var pat := MDY_SLASH_SHORT.pattern;
    assert s[..|m|] == m && s[|m| + 1..][..|d|] == d && s[|m| + 1..][|d| + 1..] == yy;
    assert groups[1..][1..] == [yy];
    assert Splits(s[|m| + 1..][|d| + 1..], groups[1..][1..], pat.Tail().Tail());
    assert Splits(s[|m| + 1..], groups[1..], pat.Tail());
  }

  /** `M/D/YY` is read by the second format, the year put in this century
      and month and day padded. */
  lemma ShortSlashDateParsed(m: string, d: string, yy: string)
    requires 1 <= |m| <= 2 && 1 <= |d| <= 2 && |yy| == 2 && IsDigits(m) && IsDigits(d) && IsDigits(yy)
    requires 1 <= DecimalValue(m) <= 12 && 1 <= DecimalValue(d) <= 31
    ensures ParseDate(m + "/" + d + "/" + yy) == Some(Iso("20" + yy, PadStart2(m), PadStart2(d)))
  {
    var s := m + "/" + d + "/" + yy;
    ShortDateHasNoYear(m, d, yy);
    FourDigitYearNeeded(s, 0);
    ShortSlashCandidate(m, d, yy);
    hide Candidate, Find, FormatAt, Iso;
    ParseDateFirst(s);
  }

  lemma ShortSlashCandidate(m: string, d: string, yy: string)
    requires 1 <= |m| <= 2 && 1 <= |d| <= 2 && |yy| == 2 && IsDigits(m) && IsDigits(d) && IsDigits(yy)
    requires 1 <= DecimalValue(m) <= 12 && 1 <= DecimalValue(d) <= 31
    ensures Candidate(m + "/" + d + "/" + yy, FormatAt(1)) == Some(Iso("20" + yy, PadStart2(m), PadStart2(d)))
  {
    var s := m + "/" + d + "/" + yy;
    var groups := [m, d, yy];
    ShortSlashSplits(m, d, yy);
    FindWhole(s, groups, MDY_SLASH_SHORT.pattern);
    assert FormatAt(1) == MDY_SLASH_SHORT;
    FindGroupsFit(s, MDY_SLASH_SHORT);
    RearrangedIs(groups, MDY_SLASH_SHORT);
    hide Find, Splits, Rearranged, FullYear, PadStart2, Iso, ComponentsFit, GroupsFit;
  }

  lemma DashTailSplits(m: string, d: string)
    requires 1 <= |m| <= 2 && 1 <= |d| <= 2 && IsDigits(m) && IsDigits(d)
    ensures Splits(m + "-" + d, [m, d], YMD_DASH.pattern.Tail())
  {
    var r := m + "-" + d;
    hide IsDigits;
    assert r[..|m|] == m && r[|m| + 1..] == d;
    assert [m, d][1..] == [d];
  }

  lemma DashDateSplits(yyyy: string, m: string, d: string)
    requires |yyyy| == 4 && 1 <= |m| <= 2 && 1 <= |d| <= 2 && IsDigits(yyyy) && IsDigits(m) && IsDigits(d)
    ensures Splits(yyyy + "-" + m + "-" + d, [yyyy, m, d], YMD_DASH.pattern)
  {
    DashTailSplits(m, d);
    var r := m + "-" + d;
    var s := yyyy + "-" + m + "-" + d;
    assert s[..4] == yyyy && s[5..] == r by {
      hide IsDigits, Splits;
      assert s == yyyy + "-" + r;
    }
    assert [yyyy, m, d][1..] == [m, d];
  }

  lemma DashDateHasNoSlash(yyyy: string, m: string, d: string)
    requires IsDigits(yyyy) && IsDigits(m) && IsDigits(d)
    ensures forall j :: 0 <= j < |yyyy + "-" + m + "-" + d| ==> (yyyy + "-" + m + "-" + d)[j] != '/'
  {
    var s := yyyy + "-" + m + "-" + d;
    forall j | 0 <= j < |s|
      ensures s[j] != '/'
    {
      if j < |yyyy| {
        assert s[j] == yyyy[j];
      } else if |yyyy| < j < |yyyy| + 1 + |m| {
        assert s[j] == m[j - |yyyy| - 1];
      } else if j > |yyyy| + 1 + |m| {
        assert s[j] == d[j - |yyyy| - |m| - 2];
      }
    }
  }

  /** `YYYY-M-D` is read by the year-first format, month and day padded. */
  lemma DashDateParsed(yyyy: string, m: string, d: string)
    requires |yyyy| == 4 && 1 <= |m| <= 2 && 1 <= |d| <= 2 && IsDigits(yyyy) && IsDigits(m) && IsDigits(d)
    requires 1 <= DecimalValue(m) <= 12 && 1 <= DecimalValue(d) <= 31
    ensures ParseDate(yyyy + "-" + m + "-" + d) == Some(Iso(yyyy, PadStart2(m), PadStart2(d)))
  {
    var s := yyyy + "-" + m + "-" + d;
    DashDateHasNoSlash(yyyy, m, d);
    SlashFormatNeedsSlash(s, 0);
    SlashFormatNeedsSlash(s, 1);
    DashDateCandidate(yyyy, m, d);
    hide Candidate, Find, FormatAt, Iso;
    ParseDateFirst(s);
  }

  lemma DashDateCandidate(yyyy: string, m: string, d: string)
    requires |yyyy| == 4 && 1 <= |m| <= 2 && 1 <= |d| <= 2 && IsDigits(yyyy) && IsDigits(m) && IsDigits(d)
    requires 1 <= DecimalValue(m) <= 12 && 1 <= DecimalValue(d) <= 31
    ensures Candidate(yyyy + "-" + m + "-" + d, FormatAt(2)) == Some(Iso(yyyy, PadStart2(m), PadStart2(d)))
  {
    var s := yyyy + "-" + m + "-" + d;
    var groups := [yyyy, m, d];
    DashDateSplits(yyyy, m, d);
    FindWhole(s, groups, YMD_DASH.pattern);
    assert FormatAt(2) == YMD_DASH;
    FindGroupsFit(s, YMD_DASH);
    RearrangedIs(groups, YMD_DASH);
    hide Find, Splits, Rearranged, FullYear, PadStart2, Iso, ComponentsFit, GroupsFit;
  }

  /** "3/4/24" is the fourth of March 2024. */
  lemma ShortSlashExample()
    ensures ParseDate("3/4/24") == Some("2024-03-04")
  {
    hide ParseDate, Candidate, FirstFormat, Find;
    assert "3" + "/" + "4" + "/" + "24" == "3/4/24";
    assert DecimalValue("3") == 3 && DecimalValue("4") == 4;
    ShortSlashDateParsed("3", "4", "24");
    assert "20" + "24" == "2024" && PadStart2("3") == "03" && PadStart2("4") == "04";
    assert Iso("2024", "03", "04") == "2024-03-04";
  }

  /** "2024-3-4" is the same day. */
  lemma DashExample()
    ensures ParseDate("2024-3-4") == Some("2024-03-04")
  {
    hide ParseDate, Candidate, FirstFormat, Find;
    assert "2024" + "-" + "3" + "-" + "4" == "2024-3-4";
    assert DecimalValue("3") == 3 && DecimalValue("4") == 4;
    DashDateParsed("2024", "3", "4");
    assert PadStart2("3") == "03" && PadStart2("4") == "04";
    assert Iso("2024", "03", "04") == "2024-03-04";
  }
}
