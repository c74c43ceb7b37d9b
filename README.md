# Statement-text transaction extraction and request rate limiting, in Dafny

This project models two parts of a personal-finance web application.

**The statement parser** (`lib/pdf-parser.ts`) works on the text decoded from a bank
statement. `parseTransactionsFromText`:

- splits the text into trimmed, non-blank lines;
- reads the lines in one forward pass, keeping the date last seen in force;
- turns each line with a non-zero amount into an `ExtractedTransaction`, once a date is in force.

Each transaction gets:

- a description, recovered from what is left of the line;
- `income` or `expense`, from the sign of the amount;
- a category, from a fixed keyword table (`categorizeTransaction`);
- the constant confidence 0.7.

Dates are normalised to `YYYY-MM-DD` by `parseDate`.

**The rate limiter** (`lib/rate-limit.ts`) keeps a table from identifier to a request count and
the end of a fifteen-minute window. It allows at most 100 requests per window. A periodic sweep
deletes entries whose window has ended.

## Modules

- `text.dfy` (`Text`): the JavaScript string operations the parser uses. These are `split`, `trim`,
  `toLowerCase`, `includes`, `replace(/,/g, '')` and numerals.
- `field_patterns.dfy` (`FieldPatterns`): the date regular expressions. Each is three digit runs
  `\d{a,b}` separated by single characters.
  - The four `parseDate` formats capture each run as a group.
  - The line date pattern `(\d{1,2}[\/\-]\d{1,2}[\/\-]\d{2,4})` has one group around the whole
    match. For it the model uses only the span of a match.
  - `Splits` says declaratively when a text is a whole match.
  - `Find` is the deterministic search.
  - Lemmas prove that `Find` returns the leftmost match, and the longest one there. For these
    patterns, that is the match JavaScript's backtracking returns.
- `amount_pattern.dfy` (`AmountPattern`): the amount expression `[\$]?([-]?\d{1,3}(?:,\d{3})*(?:\.\d{2})?)`.
  - `IsAmountToken` is its language, `FindAmount` is its search, and `Cents` is the value of its
    capture group.
  - Amounts are integers counted in cents. This is exact, because a fraction has no digits or
    exactly two.
- `dates.dfy` (`Dates`): `parseDate`, with its four formats tried in order.
- `categories.dfy` (`Categories`): `categorizeTransaction` and its table.
- `pdf_parser.dfy` (`PdfParser`): the extraction loop.
  - It is an imperative method proved equal to `ExtractedUpTo`, which says what the first `n`
    lines produce. Each turn of its loop is the method `ReadLine`.
  - Lemmas describe that output.
- `rate_limit.dfy` (`RateLimit`): the limiter, as a class over `store: map<string, Entry>`.
  - The clock reading `now` is an argument.
  - The methods are proved against the one-call function `Step` and the sweep function `Swept`.

### Behaviour of the code worth knowing

- **Rejected dates:** a format whose pattern matches does not end the search when `new Date`
  rejects the rearranged date. The next format is tried instead. For example, `13/32/2024` is
  tried as `MM/DD/YYYY` and then again as `MM/DD/YY` (`Dates.ParseDate`, `Dates.ParseDateFirst`).
- **Calendar validity:** the code leaves validity to the JavaScript `Date` constructor, and
  engines differ on dates such as day 30 of February. The model accepts months 01–12 and days
  01–31 (`Dates.Accepted`).
- **A date line is a transaction:** the lines `01/15/2024`, `WALMART PURCHASE -54.32` and
  `STARBUCKS 5.75` give three transactions, not two.
  - The first amount match on the date line is the month `01`. So the date line is income of
    1.00, with description `/15/2024` (`PdfParser.DateOnlyLine`).
- **Year-first dates in a line:** `parseDate` accepts `YYYY-MM-DD` (`Dates.ParseDateOfIsoDate`).
  But a line's date text is captured by `(\d{1,2}[\/\-]\d{1,2}[\/\-]\d{2,4})`, which takes at most two
  leading digits.
  - `2024-03-04` is captured as `24-03-04`, which `parseDate` rejects.
  - So a line with such a date never sets the date in force, wherever the date stands, as long as
    there is no digit anywhere before it and none right after it (`PdfParser.IsoLineSetsNoDate`).
    An earlier date on the same line, such as `01/15/2024 2024-03-04`, is found first and can set
    the date.

## Model

| member | source | states |
|---|---|---|
| Text.StripCommasAppend | lib/pdf-parser.ts:62 | Removing every comma works piecewise: stripping a concatenation is the concatenation of the stripped parts. |
| Text.Trim | lib/pdf-parser.ts:30 | A trimmed line is a slice of the line that neither starts nor ends with white space, and everything cut off on either side is white space. |
| Text.DecimalValueZero | lib/pdf-parser.ts:62 | A numeral denotes zero exactly when every digit in it is `0`. |
| Text.StripCommasZeroDigits | lib/pdf-parser.ts:62 | Removing commas neither adds nor removes a non-zero digit. |
| Text.TrimEmpty | lib/pdf-parser.ts:30 | Trimming leaves nothing exactly when the line is all white space. |
| Text.TrimUnpadded | lib/pdf-parser.ts:70 | Text that neither starts nor ends with white space is its own trim. |
| Text.TrimChars | lib/pdf-parser.ts:30 | Trimming only removes characters. |
| Text.JoinSplit | lib/pdf-parser.ts:30 | Splitting on `\n` loses nothing: joining the pieces with the separator gives the text back. |
| Text.Split | lib/pdf-parser.ts:30 | `split('\n')` gives at least one piece, and no piece holds the separator. |
| Text.SplitJoin | lib/pdf-parser.ts:30 | Splitting undoes joining, for pieces without the separator. |
| Text.ToLower | lib/pdf-parser.ts:153 | `toLowerCase` keeps the length. |
| Text.ToLowerChars | lib/pdf-parser.ts:153 | Lower-casing works character by character. |
| Text.ContainsMeaning | lib/pdf-parser.ts:171 | `includes` holds exactly when the keyword occurs at some position. |
| Text.ContainsTransitive | lib/pdf-parser.ts:159-161 | A text that contains `k` contains everything `k` contains. |
| FieldPatterns.MatchAtMatches | lib/pdf-parser.ts:34 | What the matcher finds from a position is a whole match of the pattern, split into its capture groups. |
| FieldPatterns.MatchAtLongest | lib/pdf-parser.ts:34 | Every match that starts at a position is found there, and the found match ends no earlier. |
| FieldPatterns.Find | lib/pdf-parser.ts:45 | `line.match(datePattern)` finds a span inside the text, with one group per digit run. |
| FieldPatterns.FindMatches | lib/pdf-parser.ts:45 | What `match` finds is a match of the pattern. |
| FieldPatterns.FindFirstLongest | lib/pdf-parser.ts:45 | No match starts before the found one, and none that starts there is longer. When nothing is found, no part of the text matches. |
| FieldPatterns.FindWhole | lib/pdf-parser.ts:116 | A text that matches as a whole is found whole, with its groups. |
| FieldPatterns.SplitsUnique | lib/pdf-parser.ts:47 | The capture groups of a match are fixed by the matched text. |
| FieldPatterns.SplitsGroups | lib/pdf-parser.ts:109-112 | Each capture group is a run of digits whose length is within its field's bounds. |
| FieldPatterns.FoundSeparatorInText | lib/pdf-parser.ts:34 | A found date holds a separator of its first field. |
| AmountPattern.GroupsEnd | lib/pdf-parser.ts:36 | `(?:,\d{3})*` taken greedily: the span is whole `,ddd` groups, and no further group follows it. |
| AmountPattern.AmountAt | lib/pdf-parser.ts:36 | A match at a position starts there. Its capture group leaves out exactly a leading `$`. |
| AmountPattern.AmountAtFound | lib/pdf-parser.ts:36 | What the matcher finds from a position is an amount token, and its capture group is a signed number. |
| AmountPattern.AmountAtLongest | lib/pdf-parser.ts:36 | Every amount token that starts at a position is found there, and the found one ends no earlier. |
| AmountPattern.FindAmountFromFirst | lib/pdf-parser.ts:60 | No amount match starts before the one the search returns. When the search finds none, none starts anywhere after its start. |
| AmountPattern.FindAmount | lib/pdf-parser.ts:60 | `line.match(amountPattern)` finds a non-empty span inside the line, whose capture group leaves out exactly a leading `$`. |
| AmountPattern.FindAmountMatches | lib/pdf-parser.ts:60 | What `line.match(amountPattern)` finds is an amount, and its capture group is a signed number. |
| AmountPattern.CentsSign | lib/pdf-parser.ts:62-63 | The value of a capture group is negative exactly when the group starts with `-` and is not zero. |
| AmountPattern.CentsZero | lib/pdf-parser.ts:62-63 | The value of a capture group is zero exactly when all its digits are `0`, whatever its sign, separators and fraction. |
| AmountPattern.CentsIgnoresComma | lib/pdf-parser.ts:62 | A comma anywhere in the text does not change its value. |
| AmountPattern.CentsWithoutComma | lib/pdf-parser.ts:36-62 | A capture group without a thousands separator has at most three integer digits, so its value is strictly between -1000.00 and 1000.00. |
| AmountPattern.FindAmountFirstLongest | lib/pdf-parser.ts:60 | The amount found is the leftmost, and the longest there. When none is found, no part of the line is an amount. |
| Dates.FormatAt | lib/pdf-parser.ts:108-113 | Every format has three digit groups. The year group is four digits, or two. Month and day are at most two. |
| Dates.Iso | lib/pdf-parser.ts:138 | `${year}-${month}-${day}` has the shape `dddd-dd-dd`, and its parts are the year, month and day. |
| Dates.IsoParts | lib/pdf-parser.ts:138 | An ISO date is put back together from its parts. |
| Dates.PadStart2Value | lib/pdf-parser.ts:123-128 | `padStart(2, '0')` keeps the number the field denotes. |
| Dates.FullYearValue | lib/pdf-parser.ts:130-133 | A two-digit year YY becomes the year 2000 + YY. |
| Dates.Rearranged | lib/pdf-parser.ts:120-139 | The groups are rearranged into an ISO date exactly when the month group denotes 1–12 and the day group 1–31. The result's year, month and day denote the groups' numbers, and a two-digit year gains 2000. |
| Dates.Candidate | lib/pdf-parser.ts:116-140 | A format yields nothing when its pattern does not match. When it matches, its groups have the field lengths. It yields a date exactly when month and day are in range, and that date's year, month and day are the numbers the groups denote, plus 2000 for a two-digit year. |
| Dates.FirstFormat | lib/pdf-parser.ts:115-141 | The search stops at the first format with a candidate, and every earlier format has none. |
| Dates.ParseDate | lib/pdf-parser.ts:105-147 | A result of `parseDate` has the shape `dddd-dd-dd`, with month 01–12 and day 01–31. |
| Dates.ParseDateValue | lib/pdf-parser.ts:115-141 | A date `parseDate` returns is the candidate of a format whose pattern matched, and every earlier format gave none. |
| Dates.ParseDateFirst | lib/pdf-parser.ts:115-146 | `parseDate` is null exactly when no format has a candidate. Otherwise it is the candidate of the first format that has one. |
| Dates.IsoDateFound | lib/pdf-parser.ts:111 | The year-first format finds the whole of an ISO date, with year, month and day as its groups. |
| Dates.ParseDateOfIsoDate | lib/pdf-parser.ts:105-147 | `parseDate` gives back an accepted ISO date unchanged. |
| Dates.SlashDateParsed | lib/pdf-parser.ts:109-138 | `MM/DD/YYYY` with month 01–12 and day 01–31 is read by the first format and comes back as `YYYY-MM-DD`. |
| Dates.SlashFormatNeedsSlash | lib/pdf-parser.ts:109-110 | The slash formats find nothing in text without a slash. |
| Dates.FourDigitYearNeeded | lib/pdf-parser.ts:109-112 | The formats with a four-digit year find nothing in text without four digits in a row. |
| Dates.ShortSlashDateParsed | lib/pdf-parser.ts:110-138 | `M/D/YY` with month 1–12 and day 1–31 is read by the second format, as `20YY-MM-DD` with month and day padded to two digits. |
| Dates.DashDateParsed | lib/pdf-parser.ts:111-138 | `YYYY-M-D` with month 1–12 and day 1–31 is read by the year-first format, as `YYYY-MM-DD` with month and day padded. |
| Dates.ShortSlashExample | lib/pdf-parser.ts:105-147 | `3/4/24` is `2024-03-04`. |
| Dates.DashExample | lib/pdf-parser.ts:105-147 | `2024-3-4` is `2024-03-04`. |
| Dates.ParseDateWithoutYear | lib/pdf-parser.ts:105-147 | Text with no slash and no four digits in a row is not a date. |
| Categories.AnyKeywordMeaning | lib/pdf-parser.ts:171 | `keywords.some(k => desc.includes(k))` holds exactly when one of the keywords occurs in the text. |
| Categories.FirstHit | lib/pdf-parser.ts:170-174 | The scan stops at the first entry with a keyword in the text, and no earlier entry has one. |
| Categories.CategorizeTransaction | lib/pdf-parser.ts:152-178 | The result is `Other` exactly when no entry has a keyword in the lower-cased description. Otherwise it is the name of the first entry, in table order, that has one. |
| Categories.CategoryKnown | lib/pdf-parser.ts:156-177 | The category is `Other` or the name of a table entry. |
| Categories.CategorizeUpTo | lib/pdf-parser.ts:170-174 | A keyword of an entry settles the category on that entry or on an earlier entry that also has a keyword in the text. |
| Categories.GasBillNeverUtilities | lib/pdf-parser.ts:157-174 | A description containing `gas bill` is never `Utilities`: `gas` of `Gas` comes first. |
| Categories.GroceryKeywordWins | lib/pdf-parser.ts:157-174 | A description with a `Groceries` keyword is `Groceries`, so `walmart purchase` is not `Shopping`. |
| Categories.KeywordsStartWithLetter | lib/pdf-parser.ts:156-168 | Every keyword of the table starts with a lower-case letter. |
| Categories.NoLetterIsOther | lib/pdf-parser.ts:153-177 | A description without a letter is `Other`. |
| PdfParser.TrimNonBlank | lib/pdf-parser.ts:30 | Trimming and dropping blank lines keeps no more lines than there were, and none of them is empty. |
| PdfParser.TrimNonBlankFrom | lib/pdf-parser.ts:30 | Every kept line is a trimmed piece of the text. |
| PdfParser.TrimNonBlankKeeps | lib/pdf-parser.ts:30 | Every piece that is not blank is kept, trimmed. |
| PdfParser.TrimNonBlankSingle | lib/pdf-parser.ts:30 | A single piece gives no line when it is blank and its trim otherwise. |
| PdfParser.TrimNonBlankAppend | lib/pdf-parser.ts:30 | Cleaning two runs of pieces one after the other gives the cleaned lines of both, in order. |
| PdfParser.Lines | lib/pdf-parser.ts:30 | The lines worked through are non-empty and hold no newline. |
| PdfParser.DateAfter | lib/pdf-parser.ts:45-57 | `currentDate` after a line: the line's date when it has one `parseDate` accepts, and the date in force before otherwise. |
| PdfParser.LineDate | lib/pdf-parser.ts:45-57 | A date a line sets has the shape `dddd-dd-dd` and passes the date check. A line without date-shaped text sets none. |
| PdfParser.StripFirstAmount | lib/pdf-parser.ts:67-68 | `replace(amountPattern, '')` cuts out exactly the first amount match and leaves a line without an amount as it is. |
| PdfParser.StripFirstDate | lib/pdf-parser.ts:69 | `replace(datePattern, '')` cuts out exactly the first date match, which is not empty, and leaves text without a date as it is. |
| PdfParser.Description | lib/pdf-parser.ts:67-75 | Defines the description: the line's own text, or, when that is shorter than five characters and the line is not the first, the previous line, a space and the own text. Its properties are the four lemmas below. |
| PdfParser.DescriptionEmpty | lib/pdf-parser.ts:67-75 | A description is empty exactly on the first line, when that line has no text of its own. |
| PdfParser.DescriptionEndsWithOwn | lib/pdf-parser.ts:67-75 | A description ends with the line's own text, and is at most the previous line and a space longer. |
| PdfParser.DescriptionLocal | lib/pdf-parser.ts:67-75 | A description depends only on the line, on the line before it and on whether it is the first. |
| PdfParser.DescriptionOwnLong | lib/pdf-parser.ts:67-75 | A line with at least five characters of its own is described by them alone, whatever comes before it. |
| PdfParser.LineAmount | lib/pdf-parser.ts:60-63 | A line has an amount exactly when the amount pattern matches. Its value is that of the first match's capture group. |
| PdfParser.LineAmountMeaning | lib/pdf-parser.ts:60-63 | A line's amount is negative exactly when its capture group starts with `-` and is not zero. It is zero exactly when all its digits are `0`. Without a thousands separator it is strictly between -1000.00 and 1000.00. |
| PdfParser.DollarsWithSeparator | lib/pdf-parser.ts:60-63 | `$1,234.56` is 1234.56. |
| PdfParser.NegativeAmount | lib/pdf-parser.ts:60-63 | `-45.00` is -45.00. |
| PdfParser.ZeroAmount | lib/pdf-parser.ts:60-63 | `0.00` is an amount, of zero. |
| PdfParser.TransactionAt | lib/pdf-parser.ts:61-91 | A line emits a transaction exactly when a date is in force, it has a non-zero amount and its description is not empty. See the notes below the table. |
| PdfParser.Emitted | lib/pdf-parser.ts:77-92 | A line contributes at most one transaction. |
| PdfParser.ParseTransactionsFromText | lib/pdf-parser.ts:28-100 | The loop returns exactly what the lines produce, in order. There are at most as many transactions as lines, and each one is valid. |
| PdfParser.ReadLine | lib/pdf-parser.ts:42-94 | One turn of the loop leaves in force the date `DateBefore` gives after the line, and emits exactly what `Emitted` says the line contributes. |
| PdfParser.ExtractedBound | lib/pdf-parser.ts:29-97 | The first `n` lines produce at most `n` transactions. |
| PdfParser.DateBeforeValid | lib/pdf-parser.ts:38-53 | The date in force is always one `parseDate` produced. |
| PdfParser.ExtractedValid | lib/pdf-parser.ts:78-91 | Every transaction has a valid date, a positive amount, a description of 1 to 200 characters, a known category and confidence 0.7. |
| PdfParser.ExtractedPrefix | lib/pdf-parser.ts:84-96 | Output follows line order: what a prefix of the lines produces is a prefix of the output. |
| PdfParser.NoDateNoTransactions | lib/pdf-parser.ts:38-61 | Until a line has a date `parseDate` accepts, no date is in force and nothing is emitted. |
| PdfParser.RejectedDateKeepsCurrent | lib/pdf-parser.ts:45-57 | Date-shaped text that `parseDate` rejects leaves the date in force as it was. |
| PdfParser.IsoLineCapture | lib/pdf-parser.ts:34-47 | An ISO date anywhere in a line, with no digit before it and none right after it, is captured by the date pattern without the first two digits of its year. |
| PdfParser.IsoCaptureRejected | lib/pdf-parser.ts:105-147 | `parseDate` rejects what is left of an ISO date once the first two digits of its year are dropped. |
| PdfParser.IsoLineSetsNoDate | lib/pdf-parser.ts:34-113 | A line holding an ISO date, with no digit before it and none right after it, never sets the date in force. |
| PdfParser.DateMatchSeparators | lib/pdf-parser.ts:34 | A date match holds two separators, each `/` or `-`. |
| PdfParser.SlashDateLineDate | lib/pdf-parser.ts:45-53 | A line that is `MM/DD/YYYY`, with month 01–12 and day 01–31, sets the date `YYYY-MM-DD`. |
| PdfParser.AmountBeforeSlash | lib/pdf-parser.ts:36-60 | Two digits and a slash at the start of a line are its first amount. |
| PdfParser.SlashDateLineAmount | lib/pdf-parser.ts:60-68 | On a line that is `MM/DD/YYYY`, the month is the amount, and cutting it out leaves `/DD/YYYY`. |
| PdfParser.DateRestHasNoDate | lib/pdf-parser.ts:69 | `/DD/YYYY` holds no date-shaped text. |
| PdfParser.IncomeLine | lib/pdf-parser.ts:41-96 | A line with a date, a positive amount and a description of 5 to 200 characters sets that date and emits one income transaction with that description. |
| PdfParser.DateOnlyLine | lib/pdf-parser.ts:28-100 | A line that is only `MM/DD/YYYY`, with month 01–12 and day 01–31, sets that date and is itself an income transaction: its amount is the month in whole units and its description is `/DD/YYYY`, in category `Other`. |
| PdfParser.CappedIntegerPart | lib/pdf-parser.ts:36-63 | `1234.56` reads as 123.00, because the integer part has at most three digits unless comma-grouped. |
| PdfParser.MinusBeforeDollar | lib/pdf-parser.ts:36-63 | `-$5.00` reads as +5.00: a minus sign counts only right before the digits. |
| RateLimit.RateLimiter.constructor | lib/rate-limit.ts:11 | The table starts empty. |
| RateLimit.RateLimiter.RateLimit | lib/rate-limit.ts:16-34 | One call updates the table and returns the verdict and the remaining allowance that `Step` gives for the old table. |
| RateLimit.RateLimiter.Sweep | lib/rate-limit.ts:37-44 | The sweep leaves exactly the entries whose window has not ended. |
| RateLimit.Step | lib/rate-limit.ts:16-34 | One call keeps every entry of another key, and afterwards the table holds an entry for its key. An allowed call reports the cap minus its key's new count as remaining. A refused call reports 0 and leaves the table as it was. |
| RateLimit.NewWindow | lib/rate-limit.ts:20-26 | An unknown or expired key starts a new window with count 1, ending `WINDOW_MS` later. The call is allowed with 99 remaining. |
| RateLimit.LimitReached | lib/rate-limit.ts:28-30 | A key at the cap in an open window is refused with 0 remaining, and the table is unchanged. |
| RateLimit.CountedInWindow | lib/rate-limit.ts:32-33 | Below the cap, the count goes up by exactly one and the window end stays. The call is allowed, and remaining is the cap minus the new count. |
| RateLimit.ExpiryIsStrict | lib/rate-limit.ts:20 | At `now == resetTime` the old window still applies. |
| RateLimit.OthersUntouched | lib/rate-limit.ts:16-33 | A call creates or changes only its own entry. |
| RateLimit.StepValid | lib/rate-limit.ts:20-33 | As time goes forward, calls keep every count between 1 and 100 and every window end at most `WINDOW_MS` ahead. Remaining is between 0 and 99. |
| RateLimit.SweptKeeps | lib/rate-limit.ts:39-43 | The sweep deletes exactly the entries with `now > resetTime` and keeps the others unchanged. |
| RateLimit.SweepUnobservable | lib/rate-limit.ts:20-40 | A later call gives the same verdict, remaining and entry with or without an earlier sweep. |
| RateLimit.CallsInWindow | lib/rate-limit.ts:20-33 | While a window is open, the count ends at its start plus the number of calls allowed, never above the cap. |
| RateLimit.WindowCap | lib/rate-limit.ts:20-33 | At most 100 calls are allowed in one window, counting the call that opens it. |

These definitions have no contract of their own. What they mean is stated by the lemmas about them:

- `Text.Contains` (`lib/pdf-parser.ts:171`, `includes`) by `Text.ContainsMeaning`;
- `AmountPattern.Cents` (`lib/pdf-parser.ts:62-63`, `parseFloat` of the group without commas) by
  `AmountPattern.CentsSign`, `CentsZero`, `CentsIgnoresComma` and `CentsWithoutComma`;
- `PdfParser.OwnText` (`lib/pdf-parser.ts:67-70`, the line with its amount and date cut out,
  trimmed) by `PdfParser.StripFirstAmount`, `StripFirstDate` and `Text.Trim`;
- `PdfParser.DateBefore` (`lib/pdf-parser.ts:38-57`, `currentDate`) by `PdfParser.DateBeforeValid`,
  `NoDateNoTransactions` and `RejectedDateKeepsCurrent`;
- `PdfParser.ExtractedUpTo` (`lib/pdf-parser.ts:29-97`, the `transactions` array) by
  `PdfParser.ExtractedBound`, `ExtractedValid` and `ExtractedPrefix`;
- `RateLimit.Swept` (`lib/rate-limit.ts:37-44`, the table after the sweep) by `RateLimit.SweptKeeps`.

Notes on `PdfParser.TransactionAt`: the transaction it emits has

- the date in force;
- the absolute amount, which is positive;
- `income` exactly when the amount is positive;
- the description cut to 200 characters;
- the category of the uncut description;
- confidence 0.7.

## Left out

- `extractTextFromPDF` (`lib/pdf-parser.ts:15-22`): a call into the `pdf-parse` library. The decoded text is the model's input.
- `Date.now()` and `setInterval` in `lib/rate-limit.ts`: the clock is the argument `now`, and only the sweep's body is modelled, not its scheduling.
- Floating point: `parseFloat` and `Math.abs` are modelled on integer cents.
  - The `isNaN` test cannot fail on what the amount pattern captures, so it is not modelled.
  - Precision loss for amounts beyond 2^53 cents is not modelled.
- `Dates.Accepted`: the `new Date(...)` check is modelled as month 01–12 and day 01–31. It does not model exact calendar validity, such as day 30 of February, on which engines differ.
- `Text.ToLower`: `toLowerCase` is modelled on ASCII letters only. Every keyword is lower-case ASCII, but a non-ASCII upper-case letter in a description is not folded.
- String lengths count characters, not UTF-16 code units. The five-character and 200-character limits differ for text outside the Basic Multilingual Plane.
- `parseDate` picks the year-first reading by inspecting the regular expression's source text. The model records that choice as the flag `yearFirst` of each format.
- `for...in` order in the sweep: the loop visits keys in an arbitrary order. The resulting table does not depend on the order.
- Identifiers that name properties of `Object.prototype` (such as `toString`) make `store[key]` find an inherited value. The model treats every identifier as an ordinary key.
- The `try`/`catch` blocks in `parseDate` and around it: nothing inside them throws on a string argument, so they are not modelled.
