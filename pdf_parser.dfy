/** `parseTransactionsFromText`: one forward pass over the trimmed, non-blank
    lines of a statement's text, carrying the latest accepted date and
    emitting at most one transaction per line. */
module PdfParser {
  import opened Text
  import opened FieldPatterns
  import opened AmountPattern
  import opened Dates
  import opened Categories

  /** `(\d{1,2}[\/\-]\d{1,2}[\/\-]\d{2,4})` */
  const DATE_PATTERN := Pattern([Field(1, 2, {'/', '-'}), Field(1, 2, {'/', '-'})], 2, 4)

  /** The longest description a transaction keeps. */
  const MAX_DESCRIPTION := 200

  /** A description shorter than this takes the previous line as context. */
  const SHORT_DESCRIPTION := 5

  /** The confidence every extracted transaction is given. */
  const CONFIDENCE: real := 0.7

  /** `'income' | 'expense'` */
  datatype Kind = Income | Expense

  /** `ExtractedTransaction`; the amount is in cents and never negative, the
      sign having gone into `kind`. */
  datatype ExtractedTransaction = ExtractedTransaction(
    date: string,
    description: string,
    amount: nat,
    kind: Kind,
    category: string,
    confidence: real)

  lemma DatePatternWellFormed()
    ensures WellFormed(DATE_PATTERN)
  {
  }

  // ----------------------------------------------------------------- lines

  /** `.map(line => line.trim()).filter(line => line.length > 0)` */
  function TrimNonBlank(parts: seq<string>): (lines: seq<string>)
    ensures |lines| <= |parts|
    ensures forall i :: 0 <= i < |lines| ==> lines[i] != []
  {
    if parts == [] then []
    else if Trim(parts[0]) == [] then TrimNonBlank(parts[1..])
    else [Trim(parts[0])] + TrimNonBlank(parts[1..])
  }

  /** Every kept line is a trimmed part. */
  lemma {:induction false} TrimNonBlankFrom(parts: seq<string>)
    ensures forall i :: 0 <= i < |TrimNonBlank(parts)| ==>
              exists j :: 0 <= j < |parts| && TrimNonBlank(parts)[i] == Trim(parts[j])
  {
    if parts != [] {
      TrimNonBlankFrom(parts[1..]);
      var rest := TrimNonBlank(parts[1..]);
      var lines := TrimNonBlank(parts);
      var skip := if Trim(parts[0]) == [] then 0 else 1;
      assert lines == if skip == 0 then rest else [Trim(parts[0])] + rest;
      forall i | 0 <= i < |lines|
        ensures exists j :: 0 <= j < |parts| && lines[i] == Trim(parts[j])
      {
        if i < skip {
          assert lines[i] == Trim(parts[0]);
        } else {
          assert lines[i] == rest[i - skip];
          var j :| 0 <= j < |parts[1..]| && rest[i - skip] == Trim(parts[1..][j]);
          assert parts[1..][j] == parts[j + 1];
        }
      }
      assert TrimNonBlank(parts) == lines;
    } else {
      assert TrimNonBlank(parts) == [];
    }
  }

  /** Every part that is not blank is kept. */
  lemma {:induction false} TrimNonBlankKeeps(parts: seq<string>)
    ensures forall j :: 0 <= j < |parts| && Trim(parts[j]) != [] ==> Trim(parts[j]) in TrimNonBlank(parts)
  {
    if parts != [] {
      TrimNonBlankKeeps(parts[1..]);
      var rest := TrimNonBlank(parts[1..]);
      var lines := TrimNonBlank(parts);
      assert lines == if Trim(parts[0]) == [] then rest else [Trim(parts[0])] + rest;
      forall j | 1 <= j < |parts| && Trim(parts[j]) != []
        ensures Trim(parts[j]) in lines
      {
        assert parts[j] == parts[1..][j - 1];
      }
    }
  }

  /** Each part is handled on its own: a blank part disappears, any other
      becomes its trim. */
  lemma TrimNonBlankSingle(part: string)
    ensures TrimNonBlank([part]) == if Trim(part) == [] then [] else [Trim(part)]
  {
    assert [part][1..] == [];
  }

  /** Cleaning the lines of two pieces of text and concatenating gives the
      cleaned lines of both: the order of the kept lines is the order of the
      parts. */
  lemma {:induction false} TrimNonBlankAppend(a: seq<string>, b: seq<string>)
    ensures TrimNonBlank(a + b) == TrimNonBlank(a) + TrimNonBlank(b)
  {
    if a == [] {
      assert a + b == b;
    } else {
      assert (a + b)[0] == a[0];
      assert (a + b)[1..] == a[1..] + b;
      TrimNonBlankAppend(a[1..], b);
    }
  }

  /** A character no part holds is on no line. */
  lemma {:induction false} TrimNonBlankChars(parts: seq<string>, c: char)
    requires forall j :: 0 <= j < |parts| ==> c !in parts[j]
    ensures forall i :: 0 <= i < |TrimNonBlank(parts)| ==> c !in TrimNonBlank(parts)[i]
  {
    if parts != [] {
      TrimNonBlankChars(parts[1..], c);
      TrimChars(parts[0]);
      assert forall j :: 0 <= j < |parts[1..]| ==> parts[1..][j] == parts[j + 1];
    }
  }

  /** The lines the parser works through: `text.split('\n')`, trimmed, blank
      ones dropped. */
  function Lines(text: string): (lines: seq<string>)
    ensures forall i :: 0 <= i < |lines| ==> lines[i] != [] && '\n' !in lines[i]
  {
    var parts := Split(text, '\n');
    TrimNonBlankChars(parts, '\n');
    TrimNonBlank(parts)
  }

  // ------------------------------------------------------- a single line

  /** The date a line sets: its first date-shaped text, if `parseDate`
      accepts it. */
  function LineDate(line: string): (r: Option<string>)
    ensures r.Some? ==> IsIsoDate(r.value) && Accepted(Month(r.value), Day(r.value))
    ensures Find(line, DATE_PATTERN).None? ==> r.None?
  {
    match Find(line, DATE_PATTERN)
    case None => None
    case Some(m) => ParseDate(line[m.start..m.end])
  }

  /** `currentDate` after a line: its date when it has one, else unchanged. */
  function DateAfter(line: string, current: Option<string>): (r: Option<string>)
    ensures LineDate(line).None? ==> r == current
    ensures LineDate(line).Some? ==> r == LineDate(line)
  {
    match LineDate(line)
    case Some(d) => Some(d)
    case None => current
  }

  /** `line.replace(amountPattern, '')`: the first amount match cut out. */
  function StripFirstAmount(line: string): (r: string)
    ensures FindAmount(line).None? ==> r == line
    ensures FindAmount(line).Some? ==>
              (|r| < |line| && r == line[..FindAmount(line).value.start] + line[FindAmount(line).value.end..])
  {
    match FindAmount(line)
    case None => line
    case Some(m) => line[..m.start] + line[m.end..]
  }

  /** `.replace(datePattern, '')`: the first date match cut out. */
  function StripFirstDate(s: string): (r: string)
    ensures Find(s, DATE_PATTERN).None? ==> r == s
    ensures Find(s, DATE_PATTERN).Some? ==>
              |r| < |s| && r == s[..Find(s, DATE_PATTERN).value.start] + s[Find(s, DATE_PATTERN).value.end..]
  {
    match Find(s, DATE_PATTERN)
    case None => s
    case Some(m) =>
      FindMatches(s, DATE_PATTERN);
      SplitsGroups(s[m.start..m.end], m.groups, DATE_PATTERN, 0);
      s[..m.start] + s[m.end..]
  }

  /** What is left of a line once its amount and its date are cut out,
      trimmed. */
  function OwnText(line: string): string {
    Trim(StripFirstDate(StripFirstAmount(line)))
  }

  /** The description of line `i`, before it is cut to length: the line
      without its amount and its date, trimmed, and prefixed by the previous
      line when shorter than five characters. */
  function Description(lines: seq<string>, i: nat): (d: string)
    requires i < |lines|
    ensures var own := OwnText(lines[i]);
            if |own| < SHORT_DESCRIPTION && i > 0 then d == lines[i - 1] + " " + own else d == own
  {
    var own := OwnText(lines[i]);
    if |own| < SHORT_DESCRIPTION && i > 0 then lines[i - 1] + " " + own else own
  }

  /** Only the first line can have an empty description: a later one either
      has five characters of its own or borrows the previous line, a space
      and all. */
  lemma DescriptionEmpty(lines: seq<string>, i: nat)
    requires i < |lines|
    ensures Description(lines, i) == [] <==> i == 0 && OwnText(lines[i]) == []
  {
  }

  /** The description ends with the line's own text and is at most the
      previous line and a space longer. */
  lemma DescriptionEndsWithOwn(lines: seq<string>, i: nat)
    requires i < |lines|
    ensures var d := Description(lines, i); var own := OwnText(lines[i]);
            && |own| <= |d| <= |own| + (if i > 0 then |lines[i - 1]| + 1 else 0)
            && d[|d| - |own|..] == own
  {
  }

  /** The description of a line depends on that line, on whether it is the
      first, and on the line before it, and on nothing else. */
  lemma DescriptionLocal(lines: seq<string>, i: nat, other: seq<string>, j: nat)
    requires i < |lines| && j < |other| && lines[i] == other[j]
    requires (i > 0) == (j > 0)
    requires i > 0 ==> lines[i - 1] == other[j - 1]
    ensures Description(lines, i) == Description(other, j)
  {
  }

  /** A line with five characters of its own describes itself, whatever
      comes before it. */
  lemma DescriptionOwnLong(lines: seq<string>, i: nat, other: seq<string>, j: nat)
    requires i < |lines| && j < |other| && lines[i] == other[j]
    requires |OwnText(lines[i])| >= SHORT_DESCRIPTION
    ensures Description(lines, i) == Description(other, j) == OwnText(lines[i])
  {
  }

  /** The amount a line shows, in cents: its first amount match's value. */
  function LineAmount(line: string): (r: Option<int>)
    ensures r.Some? <==> FindAmount(line).Some?
    ensures r.Some? ==> var m := FindAmount(line).value;
                        r.value == Cents(line[m.group..m.end])
  {
    match FindAmount(line)
    case None => None
    case Some(m) =>
      Some(Cents(line[m.group..m.end]))
  }

  /** What line `i` emits when `current` is the date in force once the line's
      own date has been taken into account. */
  function TransactionAt(lines: seq<string>, i: nat, current: Option<string>): (r: Option<ExtractedTransaction>)
    requires i < |lines|
    ensures r.Some? <==> current.Some? && LineAmount(lines[i]).Some? && LineAmount(lines[i]).value != 0 &&
                         Description(lines, i) != []
    ensures r.Some? ==> var t := r.value; var c := LineAmount(lines[i]).value; var d := Description(lines, i);
              t.date == current.value && t.amount == Abs(c) && t.amount > 0 &&
              (t.kind == Income <==> c > 0) &&
              t.description == d[..Min(|d|, MAX_DESCRIPTION)] &&
              t.category == CategorizeTransaction(d) &&
              t.confidence == CONFIDENCE
  {
    match LineAmount(lines[i])
    case None => None
    case Some(c) =>
      if current.None? || c == 0 then None
      else
        var d := Description(lines, i);
        if d == [] then None
        else
          Some(ExtractedTransaction(current.value, d[..Min(|d|, MAX_DESCRIPTION)], Abs(c),
                                    if c > 0 then Income else Expense, CategorizeTransaction(d), CONFIDENCE))
  }

  // ------------------------------------------------------------- the pass

  /** `currentDate` once the first `n` lines have been read. */
  function DateBefore(lines: seq<string>, n: nat): Option<string>
    requires n <= |lines|
  {
    if n == 0 then None else DateAfter(lines[n - 1], DateBefore(lines, n - 1))
  }

  /** What line `i` contributes to the output: nothing or one transaction. */
  function Emitted(lines: seq<string>, i: nat): (r: seq<ExtractedTransaction>)
    requires i < |lines|
    ensures |r| <= 1
  {
    match TransactionAt(lines, i, DateBefore(lines, i + 1))
    case None => []
    case Some(t) => [t]
  }

  /** The transactions the first `n` lines produce, in line order. */
  function ExtractedUpTo(lines: seq<string>, n: nat): seq<ExtractedTransaction>
    requires n <= |lines|
  {
    if n == 0 then [] else ExtractedUpTo(lines, n - 1) + Emitted(lines, n - 1)
  }

  /** `parseTransactionsFromText` */
  method ParseTransactionsFromText(text: string) returns (transactions: seq<ExtractedTransaction>)
    ensures transactions == ExtractedUpTo(Lines(text), |Lines(text)|)
    ensures |transactions| <= |Lines(text)|
    ensures forall k :: 0 <= k < |transactions| ==> Valid(transactions[k])
  {
    hide Lines, Valid, Emitted;
    transactions := [];
    var lines := Lines(text);
    var currentDate: Option<string> := None;
    var i := 0;
    while i < |lines|
      invariant 0 <= i <= |lines|
      invariant currentDate == DateBefore(lines, i)
      invariant transactions == ExtractedUpTo(lines, i)
    {
      var emitted;
      currentDate, emitted := ReadLine(lines, i, currentDate);
      transactions := transactions + emitted;
      i := i + 1;
    }
    ExtractedBound(lines, |lines|);
    ExtractedValid(lines, |lines|);
  }

  /** One turn of the loop of `parseTransactionsFromText`: line `i` may set
      the date in force, and then emits a transaction or nothing. */
  method ReadLine(lines: seq<string>, i: nat, currentDate: Option<string>)
      returns (date: Option<string>, emitted: seq<ExtractedTransaction>)
    requires i < |lines| && currentDate == DateBefore(lines, i)
    ensures date == DateBefore(lines, i + 1)
    ensures emitted == Emitted(lines, i)
  {
    hide Find, FindAmount, ParseDate, Cents, Trim, CategorizeTransaction, StripFirstDate, StripFirstAmount, OwnText, LineAmount, Description, TransactionAt;
    date := currentDate;
    emitted := [];
    var line := lines[i];
    var dateMatch := Find(line, DATE_PATTERN);
    if dateMatch.Some? {
      var parsedDate := ParseDate(line[dateMatch.value.start..dateMatch.value.end]);
      if parsedDate.Some? {
        date := parsedDate;
      }
    }
    assert date == DateBefore(lines, i + 1);
    var amountMatch := FindAmount(line);
    if amountMatch.Some? && date.Some? {
      var amount := Cents(line[amountMatch.value.group..amountMatch.value.end]);
      assert LineAmount(line) == Some(amount);
      if amount != 0 {
        var description := OwnText(line);
        if |description| < SHORT_DESCRIPTION && i > 0 {
          description := lines[i - 1] + " " + description;
        }
        assert description == Description(lines, i);
        if |description| > 0 {
          var kind := if amount > 0 then Income else Expense;
          var category := CategorizeTransaction(description);
          emitted := [ExtractedTransaction(date.value,
            description[..Min(|description|, MAX_DESCRIPTION)], Abs(amount), kind, category, CONFIDENCE)];
        }
      }
    }
  }

  // --------------------------------------------------------------- lemmas

  /** What every emitted transaction satisfies on its own. */
  predicate Valid(t: ExtractedTransaction) {
    IsIsoDate(t.date) && Accepted(Month(t.date), Day(t.date)) &&
    t.amount > 0 && 0 < |t.description| <= MAX_DESCRIPTION &&
    (t.category == OTHER || exists j :: 0 <= j < |CATEGORY_TABLE| && t.category == CATEGORY_TABLE[j].name) &&
    t.confidence == CONFIDENCE
  }

  /** At most one transaction per line. */
  lemma {:induction false} ExtractedBound(lines: seq<string>, n: nat)
    requires n <= |lines|
    ensures |ExtractedUpTo(lines, n)| <= n
  {
    hide Emitted;
    if n > 0 {
      ExtractedBound(lines, n - 1);
    }
  }

  /** The date in force is always one `parseDate` produced. */
  lemma {:induction false} DateBeforeValid(lines: seq<string>, n: nat)
    requires n <= |lines|
    ensures DateBefore(lines, n).Some? ==>
              IsIsoDate(DateBefore(lines, n).value) &&
              Accepted(Month(DateBefore(lines, n).value), Day(DateBefore(lines, n).value))
  {
    if n > 0 {
      DateBeforeValid(lines, n - 1);
    }
  }

  /** Every emitted transaction is valid. */
  lemma {:induction false} ExtractedValid(lines: seq<string>, n: nat)
    requires n <= |lines|
    ensures forall k :: 0 <= k < |ExtractedUpTo(lines, n)| ==> Valid(ExtractedUpTo(lines, n)[k])
  {
    hide DateBefore, Description, LineAmount, CategorizeTransaction;
    if n > 0 {
      ExtractedValid(lines, n - 1);
      DateBeforeValid(lines, n);
      var e := Emitted(lines, n - 1);
      if e != [] {
        var t := e[0];
        var d := Description(lines, n - 1);
        CategoryKnown(d);
        assert |t.description| == Min(|d|, MAX_DESCRIPTION);
      }
    }
  }

  /** Earlier lines' transactions come first: the output for a prefix of
      the lines is a prefix of the output. */
  lemma {:induction false} ExtractedPrefix(lines: seq<string>, m: nat, n: nat)
    requires m <= n <= |lines|
    ensures ExtractedUpTo(lines, m) <= ExtractedUpTo(lines, n)
    decreases n
  {
    hide Emitted;
    if m < n {
      ExtractedPrefix(lines, m, n - 1);
    }
  }

  /** Until a line has a date `parseDate` accepts, there is no date in force
      and nothing is emitted. */
  lemma {:induction false} NoDateNoTransactions(lines: seq<string>, n: nat)
    requires n <= |lines|
    requires forall j :: 0 <= j < n ==> LineDate(lines[j]).None?
    ensures DateBefore(lines, n).None?
    ensures ExtractedUpTo(lines, n) == []
  {
    hide LineDate, LineAmount, Description, CategorizeTransaction;
    if n > 0 {
      NoDateNoTransactions(lines, n - 1);
    }
  }

  /** A date-shaped text that `parseDate` rejects leaves the date in force
      as it was. */
  lemma RejectedDateKeepsCurrent(lines: seq<string>, i: nat)
    requires i < |lines|
    requires Find(lines[i], DATE_PATTERN).Some?
    requires var m := Find(lines[i], DATE_PATTERN).value; ParseDate(lines[i][m.start..m.end]).None?
    ensures DateBefore(lines, i + 1) == DateBefore(lines, i)
  {
  }

  /** No date match starts in text without digits, nor at the first two
      digits of a four-digit year: the first field takes at most two. */
  lemma IsoInLineNothingBefore(pre: string, d: string, post: string)
    requires IsIsoDate(d)
    requires forall k :: 0 <= k < |pre| ==> !IsDigit(pre[k])
    ensures forall q :: 0 <= q < |pre| + 2 ==> MatchAt(pre + d + post, q, DATE_PATTERN).None?
  {
    var line := pre + d + post;
    var o := |pre|;
    DatePatternWellFormed();
    forall q | 0 <= q < o + 2
      ensures MatchAt(line, q, DATE_PATTERN).None?
    {
      if q < o {
        assert line[q] == pre[q];
        DigitRunIs(line, q, 0);
      } else {
        assert line[q..o + 4] == d[q - o..4];
        DigitsInSlice(d, 0, 4);
        DigitsSubslice(d, 0, 4, q - o);
        DigitRunAtLeast(line, q, o + 4 - q);
      }
    }
  }

  /** The digit runs of an ISO date that stands in a line with no digit
      right after it. */
  lemma IsoInLineRuns(pre: string, d: string, post: string)
    requires IsIsoDate(d)
    requires post == [] || !IsDigit(post[0])
    ensures var line := pre + d + post; var o := |pre|;
            && o + 10 <= |line|
            && line[o + 4] == '-' && line[o + 7] == '-'
            && line[o + 2..o + 4] == d[2..4] && line[o + 5..o + 7] == Month(d) && line[o + 8..o + 10] == Day(d)
            && DigitRun(line, o + 2) == 2 && DigitRun(line, o + 5) == 2 && DigitRun(line, o + 8) == 2
  {
    var line := pre + d + post;
    var o := |pre|;
    assert line[o..o + 10] == d;
    assert o + 10 < |line| ==> line[o + 10] == post[0];
    DigitsInSlice(d, 0, 4);
    assert line[o + 2..o + 4] == d[2..4];
    assert line[o + 5..o + 7] == Month(d);
    assert line[o + 8..o + 10] == Day(d);
    DigitRunIs(line, o + 2, 2);
    DigitRunIs(line, o + 5, 2);
    DigitRunIs(line, o + 8, 2);
  }

  lemma DayField(s: string, p: nat)
    requires p + 2 <= |s| && DigitRun(s, p) == 2
    ensures WellFormed(DATE_PATTERN.Tail().Tail())
    ensures MatchAt(s, p, DATE_PATTERN.Tail().Tail()) == Some(Capture(p + 2, [s[p..p + 2]]))
  {
    DatePatternWellFormed();
    TailWellFormed(DATE_PATTERN);
    TailWellFormed(DATE_PATTERN.Tail());
  }

  lemma MonthDayFields(s: string, p: nat)
    requires p + 5 <= |s| && DigitRun(s, p) == 2 && s[p + 2] == '-' && DigitRun(s, p + 3) == 2
    ensures WellFormed(DATE_PATTERN.Tail())
    ensures MatchAt(s, p, DATE_PATTERN.Tail()) == Some(Capture(p + 5, [s[p..p + 2], s[p + 3..p + 5]]))
  {
    DatePatternWellFormed();
    TailWellFormed(DATE_PATTERN);
    DayField(s, p + 3);
    hide DigitRun;
    MatchAtStep(s, p, DATE_PATTERN.Tail());
    assert [s[p..p + 2]] + [s[p + 3..p + 5]] == [s[p..p + 2], s[p + 3..p + 5]];
  }

  lemma DateFields(s: string, p: nat)
    requires p + 8 <= |s| && DigitRun(s, p) == 2 && s[p + 2] == '-'
    requires DigitRun(s, p + 3) == 2 && s[p + 5] == '-' && DigitRun(s, p + 6) == 2
    ensures MatchAt(s, p, DATE_PATTERN) == Some(Capture(p + 8, [s[p..p + 2], s[p + 3..p + 5], s[p + 6..p + 8]]))
  {
    DatePatternWellFormed();
    MonthDayFields(s, p + 3);
    hide DigitRun;
    MatchAtStep(s, p, DATE_PATTERN);
    assert [s[p..p + 2]] + [s[p + 3..p + 5], s[p + 6..p + 8]] == [s[p..p + 2], s[p + 3..p + 5], s[p + 6..p + 8]];
  }

  /** From the third digit of the year the date pattern takes `YY-MM-DD`,
      the day's two digits being all there are. */
  lemma IsoInLineMatch(pre: string, d: string, post: string)
    requires IsIsoDate(d)
    requires post == [] || !IsDigit(post[0])
    ensures var o := |pre|;
            MatchAt(pre + d + post, o + 2, DATE_PATTERN) == Some(Capture(o + 10, [d[2..4], Month(d), Day(d)]))
  {
    IsoInLineRuns(pre, d, post);
    DateFields(pre + d + post, |pre| + 2);
  }

  /** The date pattern captures an ISO date without the first two digits of
      its year, wherever the date stands in a line, as long as no digit
      comes before it and none right after it. */
  lemma IsoLineCapture(pre: string, d: string, post: string)
    requires IsIsoDate(d)
    requires forall k :: 0 <= k < |pre| ==> !IsDigit(pre[k])
    requires post == [] || !IsDigit(post[0])
    ensures Find(pre + d + post, DATE_PATTERN) == Some(Match(|pre| + 2, |pre| + 10, [d[2..4], Month(d), Day(d)]))
  {
    var line := pre + d + post;
    DatePatternWellFormed();
    IsoInLineNothingBefore(pre, d, post);
    IsoInLineMatch(pre, d, post);
    FindFromSkip(line, 0, |pre| + 2, DATE_PATTERN);
  }

  /** What the date pattern captures of an ISO date, `YY-MM-DD`, has no
      slash and no four digits in a row, so `parseDate` rejects it. */
  lemma IsoCaptureRejected(d: string)
    requires IsIsoDate(d)
    ensures ParseDate(d[2..10]) == None
  {
    var c := d[2..10];
    IsoDateHasNoSlash(d);
    forall j: nat
      ensures !DigitsAt(c, j, 4)
    {
      if j + 4 <= |c| {
        var k := if j <= 2 then 2 else 5;
        assert c[j..j + 4][k - j] == c[k] == '-';
      }
    }
    ParseDateWithoutYear(c);
  }

  /** A line whose date is written `YYYY-MM-DD` never sets the date in
      force. */
  lemma IsoLineSetsNoDate(pre: string, d: string, post: string)
    requires IsIsoDate(d)
    requires forall k :: 0 <= k < |pre| ==> !IsDigit(pre[k])
    requires post == [] || !IsDigit(post[0])
    ensures LineDate(pre + d + post).None?
  {
    var line := pre + d + post;
    IsoLineCapture(pre, d, post);
    IsoCaptureRejected(d);
    assert line[|pre| + 2..|pre| + 10] == d[2..10];
  }

  /** A date match holds two separators, the first one after a digit. */
  lemma DateMatchSeparators(s: string)
    ensures Find(s, DATE_PATTERN).Some? ==>
              exists a, b :: 1 <= a < b < |s| && s[a] in {'/', '-'} && s[b] in {'/', '-'}
  {
    DatePatternWellFormed();
    FindMatches(s, DATE_PATTERN);
    if Find(s, DATE_PATTERN).Some? {
      var m := Find(s, DATE_PATTERN).value;
      SplitsHead(s, m.start, DATE_PATTERN, m.end, m.groups);
      var a := m.start + |m.groups[0]|;
      TailWellFormed(DATE_PATTERN);
      SplitsHead(s, a + 1, DATE_PATTERN.Tail(), m.end, m.groups[1..]);
      var b := a + 1 + |m.groups[1..][0]|;
      assert s[a] in {'/', '-'} && s[b] in {'/', '-'};
    }
  }

  /** A line that is just a date `MM/DD/YYYY` sets that date. */
  lemma SlashDateLineDate(mm: string, dd: string, yyyy: string)
    requires |mm| == 2 && |dd| == 2 && |yyyy| == 4 && IsDigits(mm) && IsDigits(dd) && IsDigits(yyyy)
    requires Accepted(mm, dd)
    ensures LineDate(mm + "/" + dd + "/" + yyyy) == Some(Iso(yyyy, mm, dd))
  {
    var line := mm + "/" + dd + "/" + yyyy;
    var groups := [mm, dd, yyyy];
    assert line[..2] == mm && line[3..][..2] == dd && line[3..][3..] == yyyy;
    assert groups[1..][1..] == [yyyy];
    assert Splits(line[3..][3..], groups[1..][1..], DATE_PATTERN.Tail().Tail());
    assert Splits(line[3..], groups[1..], DATE_PATTERN.Tail());
    DatePatternWellFormed();
    FindWhole(line, groups, DATE_PATTERN);
    assert line[0..10] == line;
    SlashDateParsed(mm, dd, yyyy);
  }

  /** Two digits and a slash at the start of a line: the amount pattern
      takes the two digits. */
  lemma AmountBeforeSlash(line: string)
    requires |line| >= 3 && IsDigit(line[0]) && IsDigit(line[1]) && line[2] == '/'
    ensures FindAmount(line) == Some(AmountMatch(0, 0, 2))
  {
    assert IsDigits(line[0..2]) by {
      assert line[0..2][0] == line[0] && line[0..2][1] == line[1];
    }
    DigitRunIs(line, 0, 2);
    assert AmountAt(line, 0) == Some(AmountMatch(0, 0, 2));
  }

  /** On a line that is just a date `MM/DD/YYYY` the month is the first
      amount, and cutting it out leaves `/DD/YYYY`. */
  lemma SlashDateLineAmount(mm: string, dd: string, yyyy: string)
    requires |mm| == 2 && |dd| == 2 && IsDigits(mm)
    ensures var line := mm + "/" + dd + "/" + yyyy;
            LineAmount(line) == Some(DecimalValue(mm) * 100) &&
            StripFirstAmount(line) == "/" + dd + "/" + yyyy
  {
    var line := mm + "/" + dd + "/" + yyyy;
    assert line[0] == mm[0] && line[1] == mm[1] && line[2] == '/';
    AmountBeforeSlash(line);
    assert line[0..2] == mm;
    assert StripCommas(mm) == mm by {
      assert StripCommas(mm[1..]) == mm[1..];
    }
    assert line[..0] + line[2..] == "/" + dd + "/" + yyyy;
  }

  /** `/DD/YYYY` holds no date: its only separator after a digit is the
      second slash, and a date needs two. */
  lemma DateRestHasNoDate(dd: string, yyyy: string)
    requires |dd| == 2 && IsDigits(dd) && IsDigits(yyyy)
    ensures Find("/" + dd + "/" + yyyy, DATE_PATTERN).None?
  {
    var t := "/" + dd + "/" + yyyy;
    DateMatchSeparators(t);
    forall a | 1 <= a < |t| && a != 3
      ensures t[a] !in {'/', '-'}
    {
      if a < 3 {
        assert t[a] == dd[a - 1];
      } else {
        assert t[a] == yyyy[a - 4];
      }
    }
  }

  /** A line with a date, a positive amount and a description of at least
      `SHORT_DESCRIPTION` and at most `MAX_DESCRIPTION` characters sets the
      date and emits one income transaction with that description. */
  lemma IncomeLine(lines: seq<string>, i: nat, date: string, c: int, d: string)
    requires i < |lines| && LineDate(lines[i]) == Some(date) && LineAmount(lines[i]) == Some(c) && c > 0
    requires OwnText(lines[i]) == d
    requires SHORT_DESCRIPTION <= |d| <= MAX_DESCRIPTION
    ensures DateBefore(lines, i + 1) == Some(date)
    ensures Emitted(lines, i) == [ExtractedTransaction(date, d, c, Income, CategorizeTransaction(d), CONFIDENCE)]
  {
    hide LineDate, LineAmount, StripFirstAmount, StripFirstDate, Trim, CategorizeTransaction;
    assert DateBefore(lines, i + 1) == Some(date);
    assert Description(lines, i) == d;
    assert d[..Min(|d|, MAX_DESCRIPTION)] == d;
    assert TransactionAt(lines, i, Some(date)) ==
           Some(ExtractedTransaction(date, d, c, Income, CategorizeTransaction(d), CONFIDENCE));
  }

  /** What is left of `MM/DD/YYYY` once its month is read as the amount:
      no blank at either end, and no letter, so no category. */
  lemma DateRestParts(dd: string, yyyy: string)
    requires |dd| == 2 && |yyyy| == 4 && IsDigits(dd) && IsDigits(yyyy)
    ensures Trim("/" + dd + "/" + yyyy) == "/" + dd + "/" + yyyy
    ensures CategorizeTransaction("/" + dd + "/" + yyyy) == OTHER
  {
    var rest := "/" + dd + "/" + yyyy;
    assert rest[0] == '/' && rest[3] == '/';
    assert rest[|rest| - 1] == yyyy[3];
    TrimUnpadded(rest);
    forall k | 0 <= k < |rest|
      ensures !IsLetter(rest[k])
    {
      if 1 <= k < 3 {
        assert rest[k] == dd[k - 1];
        assert IsDigit(dd[k - 1]);
      } else if k > 3 {
        assert rest[k] == yyyy[k - 4];
        assert IsDigit(yyyy[k - 4]);
      }
    }
    NoLetterIsOther(rest);
  }

  /** The line `MM/DD/YYYY` on its own: its date, its amount (the month) and
      the text left once the amount and the date are taken out. */
  lemma DateOnlyLineParts(mm: string, dd: string, yyyy: string)
    requires |mm| == 2 && |dd| == 2 && |yyyy| == 4 && IsDigits(mm) && IsDigits(dd) && IsDigits(yyyy)
    requires Accepted(mm, dd)
    ensures LineDate(mm + "/" + dd + "/" + yyyy) == Some(Iso(yyyy, mm, dd))
    ensures LineAmount(mm + "/" + dd + "/" + yyyy) == Some(DecimalValue(mm) * 100) && DecimalValue(mm) >= 1
    ensures OwnText(mm + "/" + dd + "/" + yyyy) == "/" + dd + "/" + yyyy
    ensures CategorizeTransaction("/" + dd + "/" + yyyy) == OTHER
  {
    hide LineDate, LineAmount, StripFirstAmount, StripFirstDate, Trim, CategorizeTransaction, Find, FindAmount, ParseDate;
    SlashDateLineDate(mm, dd, yyyy);
    SlashDateLineAmount(mm, dd, yyyy);
    DateRestHasNoDate(dd, yyyy);
    DateRestParts(dd, yyyy);
    PadStart2Value(mm);
  }

  /** A line that is only a date `MM/DD/YYYY` sets that date and is also a
      transaction: the month, read as whole units, is its amount, and what
      is left of the date its description. */
  lemma DateOnlyLine(lines: seq<string>, i: nat, mm: string, dd: string, yyyy: string)
    requires |mm| == 2 && |dd| == 2 && |yyyy| == 4 && IsDigits(mm) && IsDigits(dd) && IsDigits(yyyy)
    requires Accepted(mm, dd)
    requires i < |lines| && lines[i] == mm + "/" + dd + "/" + yyyy
    ensures DateBefore(lines, i + 1) == Some(Iso(yyyy, mm, dd))
    ensures Emitted(lines, i) ==
              [ExtractedTransaction(Iso(yyyy, mm, dd), "/" + dd + "/" + yyyy, DecimalValue(mm) * 100,
                                    Income, OTHER, CONFIDENCE)]
  {
    DateOnlyLineParts(mm, dd, yyyy);
    hide LineDate, LineAmount, StripFirstAmount, StripFirstDate, Trim, CategorizeTransaction, DateBefore, Emitted;
    IncomeLine(lines, i, Iso(yyyy, mm, dd), DecimalValue(mm) * 100, "/" + dd + "/" + yyyy);
  }

  // ------------------------------------------------------ amount examples

  /** Without thousands separators an amount has at most three integer
      digits: in "1234.56" the first match is "123", so the line reads as
      123.00. */
  lemma CappedIntegerPart()
    ensures LineAmount("1234.56") == Some(12300)
  {
    var s := "1234.56";
    DigitRunIs(s, 0, 4);
    assert GroupsEnd(s, 3) == 3;
    assert FractionEnd(s, 3) == 3;
    assert AmountAt(s, 0) == Some(AmountMatch(0, 0, 3));
    assert FindAmount(s) == Some(AmountMatch(0, 0, 3));
    assert s[0..3] == "123";
    assert StripCommas("123") == "123";
    assert DecimalValue("123") == 123;
  }
  /** The minus sign is only recognised after the dollar sign: "-$5.00"
      matches from the `$`, so the amount is positive. */
  lemma MinusBeforeDollar()
    ensures LineAmount("-$5.00") == Some(500)
  {
    var s := "-$5.00";
    assert AmountAt(s, 0) == None;
    DigitRunIs(s, 2, 1);
    assert GroupsEnd(s, 3) == 3;
    assert FractionEnd(s, 3) == 6;
    assert AmountAt(s, 1) == Some(AmountMatch(1, 2, 6));
    assert FindAmount(s) == Some(AmountMatch(1, 2, 6));
    assert s[2..6] == "5.00";
    assert StripCommas("5.00") == "5.00";
    assert DecimalValue("5") == 5;
    assert DecimalValue("00") == 0;
  }

  /** What the amount of a line means: it is negative exactly when its
      capture group carries a minus sign and is not zero, zero exactly when
      all its digits are, and below 1000 either way when it has no
      thousands separator. */
  lemma LineAmountMeaning(line: string)
    ensures LineAmount(line).Some? ==>
              var m := FindAmount(line).value;
              var g := line[m.group..m.end];
              var c := LineAmount(line).value;
              && |g| > 0
              && (c < 0 <==> g[0] == '-' && c != 0)
              && (c == 0 <==> ZeroDigits(g))
              && (',' !in g ==> -100000 < c < 100000)
  {
    if LineAmount(line).Some? {
      FindAmountMatches(line);
      var m := FindAmount(line).value;
      var g := line[m.group..m.end];
      CentsSign(g);
      CentsZero(g);
      if ',' !in g {
        CentsWithoutComma(g);
      }
    }
  }

  /** A dollar sign and thousands separators: "$1,234.56" is 1234.56. */
  lemma DollarsWithSeparator()
    ensures LineAmount("$1,234.56") == Some(123456)
  {
    DollarsMatch();
    SeparatedCents();
    hide FindAmount, Cents;
    assert "$1,234.56"[1..9] == "1,234.56";
  }

  lemma DollarsMatch()
    ensures FindAmount("$1,234.56") == Some(AmountMatch(0, 1, 9))
  {
    var s := "$1,234.56";
    DigitRunIs(s, 1, 1);
    assert s[3..6] == "234";
    assert GroupsEnd(s, 6) == 6;
    assert GroupsEnd(s, 2) == 6;
    assert FractionEnd(s, 6) == 9;
    assert AmountAt(s, 0) == Some(AmountMatch(0, 1, 9));
  }

  lemma SeparatedCents()
    ensures Cents("1,234.56") == 123456
  {
    CentsIgnoresComma("1", "234.56");
    assert "1" + "," + "234.56" == "1,234.56";
    assert "1" + "234.56" == "1234.56";
    PlainCents();
  }

  lemma PlainCents()
    ensures Cents("1234.56") == 123456
  {
    var x := "1234.56";
    assert ',' !in x;
    assert StripCommas(x) == x;
    hide StripCommas;
    assert x[..4] == "1234" && x[5..] == "56";
    assert "1234"[..3] == "123" && "123"[..2] == "12" && "12"[..1] == "1";
    assert DecimalValue("12") == 12;
    assert DecimalValue("1234") == 1234;
    assert DecimalValue("56") == 56;
    assert UnsignedCents(x) == 123456;
  }

  /** A minus sign makes the amount negative: "-45.00" is -45. */
  lemma NegativeAmount()
    ensures LineAmount("-45.00") == Some(-4500)
  {
    NegativeMatch();
    NegativeCents();
    hide FindAmount, Cents;
    assert "-45.00"[0..6] == "-45.00";
  }

  lemma NegativeMatch()
    ensures FindAmount("-45.00") == Some(AmountMatch(0, 0, 6))
  {
    var s := "-45.00";
    DigitRunIs(s, 1, 2);
    assert GroupsEnd(s, 3) == 3;
    assert FractionEnd(s, 3) == 6;
    assert AmountAt(s, 0) == Some(AmountMatch(0, 0, 6));
  }

  lemma NegativeCents()
    ensures Cents("-45.00") == -4500
  {
    var s := "-45.00";
    assert StripCommas(s) == s;
    hide StripCommas;
    var x := s[1..];
    assert x == "45.00";
    assert x[..2] == "45" && x[3..] == "00";
    assert DecimalValue("45") == 45;
    assert DecimalValue("00") == 0;
    assert UnsignedCents(x) == 4500;
  }

  /** "0.00" is an amount, of zero. */
  lemma ZeroAmount()
    ensures LineAmount("0.00") == Some(0)
  {
    var s := "0.00";
    DigitRunIs(s, 0, 1);
    assert GroupsEnd(s, 1) == 1;
    assert FractionEnd(s, 1) == 4;
    assert AmountAt(s, 0) == Some(AmountMatch(0, 0, 4));
    assert FindAmount(s) == Some(AmountMatch(0, 0, 4));
    assert s[0..4] == s;
    assert StripCommas(s) == s;
    assert DecimalValue("0") == 0;
    assert DecimalValue("00") == 0;
  }
}
