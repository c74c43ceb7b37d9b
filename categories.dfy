/** `categorizeTransaction`: the first category, in the order of the table,
    one of whose keywords occurs in the lower-cased description. */
module Categories {
  import opened Text

  datatype Category = Category(name: string, keywords: seq<string>)

  // The entries of the category table, one constant each.
  const GROCERIES := Category("Groceries", ["grocery", "supermarket", "walmart", "target", "kroger", "safeway", "whole foods", "trader joe"])
  const RESTAURANTS := Category("Restaurants", ["restaurant", "cafe", "starbucks", "mcdonald", "subway", "pizza", "dining", "food", "eat"])
  const GAS := Category("Gas", ["gas", "fuel", "shell", "exxon", "bp", "chevron", "mobil", "petrol"])
  const RENT := Category("Rent", ["rent", "lease", "apartment", "housing"])
  const UTILITIES := Category("Utilities", ["electric", "water", "gas bill", "utility", "power", "internet", "cable", "phone bill"])
  const TRANSPORTATION := Category("Transportation", ["uber", "lyft", "taxi", "metro", "transit", "bus", "train"])
  const SHOPPING := Category("Shopping", ["amazon", "store", "shop", "retail", "purchase"])
  const ENTERTAINMENT := Category("Entertainment", ["movie", "netflix", "spotify", "entertainment", "theater", "concert"])
  const HEALTHCARE := Category("Healthcare", ["pharmacy", "drug", "cvs", "walgreens", "medical", "doctor", "hospital", "health"])
  const SALARY := Category("Salary", ["salary", "payroll", "paycheck", "income", "deposit"])
  const TRANSFER := Category("Transfer", ["transfer", "payment", "ach", "wire"])

  /** The category table, in declaration order. */
  const CATEGORY_TABLE: seq<Category> := [
    GROCERIES, RESTAURANTS, GAS, RENT, UTILITIES, TRANSPORTATION,
    SHOPPING, ENTERTAINMENT, HEALTHCARE, SALARY, TRANSFER
  ]

  /** The category of a description no keyword occurs in. */
  const OTHER := "Other"

  /** `keywords.some(keyword => desc.includes(keyword))` */
  function AnyKeyword(desc: string, keywords: seq<string>): bool {
    keywords != [] && (Contains(desc, keywords[0]) || AnyKeyword(desc, keywords[1..]))
  }

  /** `some` holds exactly when one of the keywords occurs. */
  lemma {:induction false} AnyKeywordMeaning(desc: string, keywords: seq<string>)
    ensures AnyKeyword(desc, keywords) <==> exists i :: 0 <= i < |keywords| && Contains(desc, keywords[i])
  {
    if keywords != [] {
      AnyKeywordMeaning(desc, keywords[1..]);
      assert forall i :: 1 <= i < |keywords| ==> keywords[i] == keywords[1..][i - 1];
    }
  }

  predicate Hits(desc: string, c: Category) {
    AnyKeyword(desc, c.keywords)
  }

  /** The scan of the table from entry `i` on: the index of the first entry
      with a keyword in `desc`, or the table's length when there is none. */
  function FirstHit(desc: string, i: nat): (r: nat)
    requires i <= |CATEGORY_TABLE|
    ensures i <= r <= |CATEGORY_TABLE|
    ensures r < |CATEGORY_TABLE| ==> Hits(desc, CATEGORY_TABLE[r])
    ensures forall k :: i <= k < r ==> !Hits(desc, CATEGORY_TABLE[k])
    decreases |CATEGORY_TABLE| - i
  {
    if i == |CATEGORY_TABLE| || Hits(desc, CATEGORY_TABLE[i]) then i
    else FirstHit(desc, i + 1)
  }

  /** `categorizeTransaction`: the name of the first category one of whose
      keywords occurs in the lower-cased description; `Other` exactly when
      none does. */
  function CategorizeTransaction(description: string): (r: string)
    ensures r == OTHER <==> forall j :: 0 <= j < |CATEGORY_TABLE| ==> !Hits(ToLower(description), CATEGORY_TABLE[j])
    ensures forall j :: 0 <= j < |CATEGORY_TABLE| && Hits(ToLower(description), CATEGORY_TABLE[j]) &&
                        (forall k :: 0 <= k < j ==> !Hits(ToLower(description), CATEGORY_TABLE[k])) ==>
                        r == CATEGORY_TABLE[j].name
  {
    var i := FirstHit(ToLower(description), 0);
    if i < |CATEGORY_TABLE| then
      assert CATEGORY_TABLE[i].name != OTHER;
      CATEGORY_TABLE[i].name
    else OTHER
  }

  /** The category is always `Other` or the name of an entry of the table. */
  lemma CategoryKnown(description: string)
    ensures var r := CategorizeTransaction(description);
            r == OTHER || exists j :: 0 <= j < |CATEGORY_TABLE| && r == CATEGORY_TABLE[j].name
  {
  }

  /** A keyword of entry `j` settles the category on `j` or on an earlier
      entry that also hits: the table is scanned in order. */
  lemma CategorizeUpTo(description: string, j: nat)
    requires j < |CATEGORY_TABLE| && Hits(ToLower(description), CATEGORY_TABLE[j])
    ensures exists k :: 0 <= k <= j && Hits(ToLower(description), CATEGORY_TABLE[k]) &&
                        CategorizeTransaction(description) == CATEGORY_TABLE[k].name
  {
    var k := FirstHit(ToLower(description), 0);
    assert k <= j;
  }

  /** `gas bill` is a keyword of `Utilities`, but it contains `gas`, which
      `Gas` lists earlier: such a description is never `Utilities`. */
  lemma GasBillNeverUtilities(description: string)
    requires Contains(ToLower(description), "gas bill")
    ensures CategorizeTransaction(description) in {"Groceries", "Restaurants", "Gas"}
  {
    var desc := ToLower(description);
    assert StartsWith("gas bill", "gas");
    ContainsTransitive(desc, "gas bill", "gas");
    assert GAS.keywords[0] == "gas";
    assert Hits(desc, CATEGORY_TABLE[2]);
    CategorizeUpTo(description, 2);
  }

  /** A description with a `Groceries` keyword is `Groceries`, whatever
      else it holds: `walmart purchase` is not `Shopping`. */
  lemma GroceryKeywordWins(description: string, i: nat)
    requires i < |GROCERIES.keywords| && Contains(ToLower(description), GROCERIES.keywords[i])
    ensures CategorizeTransaction(description) == "Groceries"
  {
    AnyKeywordMeaning(ToLower(description), GROCERIES.keywords);
    CategorizeUpTo(description, 0);
  }

  predicate IsLetter(c: char) {
    'a' <= c <= 'z' || 'A' <= c <= 'Z'
  }

  /** Every keyword of an entry begins with a lower-case letter. */
  lemma KeywordsStartWithLetter(c: Category)
    requires c in CATEGORY_TABLE
    ensures forall i :: 0 <= i < |c.keywords| ==> c.keywords[i] != [] && 'a' <= c.keywords[i][0] <= 'z'
  {
  }

  /** A description without a letter matches no keyword: `Other`. */
  lemma NoLetterIsOther(description: string)
    requires forall i :: 0 <= i < |description| ==> !IsLetter(description[i])
    ensures CategorizeTransaction(description) == OTHER
  {
    var desc := ToLower(description);
    ToLowerChars(description);
    forall j | 0 <= j < |CATEGORY_TABLE|
      ensures !Hits(desc, CATEGORY_TABLE[j])
    {
      var c := CATEGORY_TABLE[j];
      KeywordsStartWithLetter(c);
      AnyKeywordMeaning(desc, c.keywords);
      forall i | 0 <= i < |c.keywords|
        ensures !Contains(desc, c.keywords[i])
      {
        ContainsMeaning(desc, c.keywords[i]);
      }
    }
  }
}
