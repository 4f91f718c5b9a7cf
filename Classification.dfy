/** The keyword classifiers of the scraper: `categorize_content`, `get_therapeutic_modality`,
    `assess_complexity` and `get_modality_specific_tag` (main.py:99-116, 151-176). */
module Classification {
  import opened Text

  // ---------------------------------------------------------------------------
  // Categories (main.py:99-116).

  datatype Category = Category(name: string, keywords: seq<string>)

  /** The category table in the order of its dictionary literal, keywords verbatim. */
  const CategoryTable: seq<Category> := [
    Category("anxiety", ["anxiety", "panic", "stress", "worry", "anxious"]),
    Category("depression", ["depression", "depressed", "mood", "sad", "hopeless"]),
    Category("trauma", ["trauma", "ptsd", "abuse", "traumatic"]),
    Category("relationships", ["relationship", "marriage", "partner", "family", "couple"]),
    Category("therapy_types", ["cbt", "dbt", "emdr", "psychodynamic", "behavioral"])
  ]

  function Names(table: seq<Category>): (r: seq<string>)
    ensures |r| == |table|
    ensures forall i :: 0 <= i < |table| ==> r[i] == table[i].name
  {
    seq(|table|, i requires 0 <= i < |table| => table[i].name)
  }

  /** The names of the categories of `table` one of whose keywords occurs in
      `lowered`, in table order. */
  function MatchingCategories(table: seq<Category>, lowered: string): (r: seq<string>)
    ensures |r| <= |table|
    decreases |table|
  {
    if table == [] then []
    else
      var last := table[|table| - 1];
      MatchingCategories(table[..|table| - 1], lowered)
        + (if ContainsAny(lowered, last.keywords) then [last.name] else [])
  }

  method CategorizeContent(text: string) returns (categories: seq<string>)
    ensures categories == MatchingCategories(CategoryTable, Lower(text))
  {
    categories := [];
    var textLower := Lower(text);
    for i := 0 to |CategoryTable|
      invariant categories == MatchingCategories(CategoryTable[..i], textLower)
    {
      var category := CategoryTable[i];
      assert CategoryTable[..i + 1][..i] == CategoryTable[..i];
      if ContainsAny(textLower, category.keywords) {
        categories := categories + [category.name];
      }
    }
    assert CategoryTable[..|CategoryTable|] == CategoryTable;
  }

  /** A category is listed exactly when one of its keywords occurs in the text. */
  lemma {:induction false} MatchingCategoriesIff(table: seq<Category>, lowered: string, c: string)
    ensures c in MatchingCategories(table, lowered) <==>
      exists i :: 0 <= i < |table| && table[i].name == c && ContainsAny(lowered, table[i].keywords)
    decreases |table|
  {
    if table != [] {
      var init := table[..|table| - 1];
      MatchingCategoriesIff(init, lowered, c);
      if exists i :: 0 <= i < |table| && table[i].name == c && ContainsAny(lowered, table[i].keywords) {
        var i :| 0 <= i < |table| && table[i].name == c && ContainsAny(lowered, table[i].keywords);
        if i < |init| {
          assert init[i] == table[i];
        }
      }
      if c in MatchingCategories(init, lowered) {
        var i :| 0 <= i < |init| && init[i].name == c && ContainsAny(lowered, init[i].keywords);
        assert table[i] == init[i];
      }
    }
  }

  /** The categories come out in table order. */
  lemma {:induction false} MatchingCategoriesOrdered(table: seq<Category>, lowered: string)
    ensures IsSubsequence(MatchingCategories(table, lowered), Names(table))
    decreases |table|
  {
    if table != [] {
      var init, last := table[..|table| - 1], table[|table| - 1];
      var prev := MatchingCategories(init, lowered);
      var r := MatchingCategories(table, lowered);
      MatchingCategoriesOrdered(init, lowered);
      var names := Names(table);
      assert names == Names(init) + [last.name];
      if ContainsAny(lowered, last.keywords) {
        assert r == prev + [last.name];
        assert r[..|r| - 1] == prev;
        assert names[..|names| - 1] == Names(init);
      } else {
        assert r == prev;
        SubsequenceOfLonger(prev, Names(init), last.name);
      }
    }
  }

  /** Pairwise different names. */
  predicate DistinctNames(table: seq<Category>) {
    forall i, j :: 0 <= i < j < |table| ==> table[i].name != table[j].name
  }

  lemma CategoryNamesDistinct()
    ensures DistinctNames(CategoryTable)
  {
    forall i, j | 0 <= i < j < |CategoryTable| ensures CategoryTable[i].name != CategoryTable[j].name {
      var a, b := CategoryTable[i].name, CategoryTable[j].name;
      assert a[0] != b[0] || |a| != |b|;
    }
  }

  predicate NoDuplicates(s: seq<string>) {
    forall i, j :: 0 <= i < j < |s| ==> s[i] != s[j]
  }

  /** With distinct names in the table, no category is listed twice. */
  lemma {:induction false} MatchingCategoriesNoDuplicates(table: seq<Category>, lowered: string)
    requires DistinctNames(table)
    ensures NoDuplicates(MatchingCategories(table, lowered))
    decreases |table|
  {
    if table != [] {
      var init := table[..|table| - 1];
      var last := table[|table| - 1];
      assert DistinctNames(init);
      MatchingCategoriesNoDuplicates(init, lowered);
      if ContainsAny(lowered, last.keywords) {
        var prev := MatchingCategories(init, lowered);
        forall i | 0 <= i < |prev| ensures prev[i] != last.name {
          MatchingCategoriesIff(init, lowered, prev[i]);
          var k :| 0 <= k < |init| && init[k].name == prev[i] && ContainsAny(lowered, init[k].keywords);
          assert init[k] == table[k];
        }
      }
    }
  }

  /** What `categorize_content` promises: no duplicates, the table's order, and a
      category exactly when one of its keywords occurs in the lower-cased text. */
  lemma CategoriesOfText(text: string)
    ensures NoDuplicates(MatchingCategories(CategoryTable, Lower(text)))
    ensures IsSubsequence(MatchingCategories(CategoryTable, Lower(text)), Names(CategoryTable))
    ensures forall i :: 0 <= i < |CategoryTable| ==>
      ((CategoryTable[i].name in MatchingCategories(CategoryTable, Lower(text)))
        <==> ContainsAny(Lower(text), CategoryTable[i].keywords))
  {
    var lowered := Lower(text);
    CategoryNamesDistinct();
    MatchingCategoriesNoDuplicates(CategoryTable, lowered);
    MatchingCategoriesOrdered(CategoryTable, lowered);
    forall i | 0 <= i < |CategoryTable|
      ensures (CategoryTable[i].name in MatchingCategories(CategoryTable, lowered))
        <==> ContainsAny(lowered, CategoryTable[i].keywords)
    {
      MatchingCategoriesIff(CategoryTable, lowered, CategoryTable[i].name);
      if CategoryTable[i].name in MatchingCategories(CategoryTable, lowered) {
        var k :| 0 <= k < |CategoryTable| && CategoryTable[k].name == CategoryTable[i].name
          && ContainsAny(lowered, CategoryTable[k].keywords);
        assert k == i;
      }
    }
  }

  // ---------------------------------------------------------------------------
  // Therapeutic modality (main.py:151-159).

  datatype Modality = CBT | DBT | Unknown

  /** The string stored in the record. */
  function ModalityName(m: Modality): string {
    match m
    case CBT => "CBT"
    case DBT => "DBT"
    case Unknown => "Unknown"
  }

  /** `keyword` occurs in one of the two texts, lower-cased. */
  predicate MentionedIn(q: string, a: string, keyword: string) {
    Contains(Lower(q), keyword) || Contains(Lower(a), keyword)
  }

  function TherapeuticModality(questionText: string, answerText: string): (r: Modality)
    ensures r == CBT <==> MentionedIn(questionText, answerText, "cbt")
    ensures r == Unknown <==>
      !MentionedIn(questionText, answerText, "cbt") && !MentionedIn(questionText, answerText, "dbt")
  {
    if MentionedIn(questionText, answerText, "cbt") then CBT
    else if MentionedIn(questionText, answerText, "dbt") then DBT
    else Unknown
  }

  /** The modality read off one text. */
  function ModalityOf(text: string): Modality {
    if Contains(text, "cbt") then CBT else if Contains(text, "dbt") then DBT else Unknown
  }

  lemma LowerJoin(q: string, a: string)
    ensures Lower(q + " " + a) == Lower(q) + " " + Lower(a)
  {
    LowerConcat(q + " ", a);
    LowerConcat(q, " ");
  }

  /** A keyword without spaces occurs in the joined text exactly when it occurs
      in one of its two parts. */
  lemma MentionedInJoin(q: string, a: string, keyword: string)
    requires keyword == "cbt" || keyword == "dbt" || keyword == "parts"
    ensures Contains(Lower(q + " " + a), keyword) <==> MentionedIn(q, a, keyword)
  {
    LowerJoin(q, a);
    assert forall k :: 0 <= k < |keyword| ==> keyword[k] != ' ';
    ContainsAcrossSpace(Lower(q), Lower(a), keyword);
  }

  /** Searching the two texts separately is searching the text the record
      categorizes, `question_text + " " + answer_text`. */
  lemma ModalityOfJoinedText(q: string, a: string)
    ensures TherapeuticModality(q, a) == ModalityOf(Lower(q + " " + a))
  {
    MentionedInJoin(q, a, "cbt");
    MentionedInJoin(q, a, "dbt");
  }

  /** A recognised modality always comes with the `therapy_types` category. */
  lemma ModalityImpliesTherapyCategory(q: string, a: string)
    requires TherapeuticModality(q, a) != Unknown
    ensures "therapy_types" in MatchingCategories(CategoryTable, Lower(q + " " + a))
  {
    var lowered := Lower(q + " " + a);
    ModalityOfJoinedText(q, a);
    var therapy := CategoryTable[4];
    assert therapy.keywords[0] == "cbt" && therapy.keywords[1] == "dbt";
    assert ContainsAny(lowered, therapy.keywords);
    MatchingCategoriesIff(CategoryTable, lowered, "therapy_types");
  }

  // ---------------------------------------------------------------------------
  // Complexity (main.py:161-168).

  datatype Complexity = Low | Medium | High

  function ComplexityName(c: Complexity): string {
    match c
    case Low => "Low"
    case Medium => "Medium"
    case High => "High"
  }

  /** The tier of a pair with `q` question words and `a` answer words. */
  function ComplexityTier(q: nat, a: nat): Complexity {
    if q < 30 && a < 100 then Low
    else if q < 50 && a < 200 then Medium
    else High
  }

  function AssessComplexity(questionText: string, answerText: string): (r: Complexity)
    ensures r == Low <==> WordCount(questionText) < 30 && WordCount(answerText) < 100
    ensures r == High <==> WordCount(questionText) >= 50 || WordCount(answerText) >= 200
  {
    ComplexityTier(WordCount(questionText), WordCount(answerText))
  }

  function Rank(c: Complexity): nat {
    match c
    case Low => 0
    case Medium => 1
    case High => 2
  }

  /** More words never give a lower tier. */
  lemma ComplexityMonotone(q: nat, a: nat, q': nat, a': nat)
    requires q <= q' && a <= a'
    ensures Rank(ComplexityTier(q, a)) <= Rank(ComplexityTier(q', a'))
  {
  }

  /** The tier boundaries: `(29, 99)` is low, one more word on each side is medium. */
  lemma ComplexityBoundaries()
    ensures ComplexityTier(29, 99) == Low && ComplexityTier(30, 100) == Medium
    ensures ComplexityTier(49, 199) == Medium && ComplexityTier(50, 0) == High && ComplexityTier(0, 200) == High
  {
  }

  // ---------------------------------------------------------------------------
  // Modality-specific tag (main.py:170-176).

  datatype Tag = PartsWork | NoTag

  /** The string stored in the record; the absent tag is stored as `"None"`. */
  function TagName(t: Tag): string {
    match t
    case PartsWork => "Parts Work"
    case NoTag => "None"
  }

  function ModalitySpecificTag(questionText: string, answerText: string): (r: Tag)
    ensures r == PartsWork <==> MentionedIn(questionText, answerText, "parts")
  {
    if MentionedIn(questionText, answerText, "parts") then PartsWork else NoTag
  }

  /** The tag too is a search of the joined text. */
  lemma TagOfJoinedText(q: string, a: string)
    ensures ModalitySpecificTag(q, a) == PartsWork <==> Contains(Lower(q + " " + a), "parts")
  {
    MentionedInJoin(q, a, "parts");
  }
}
