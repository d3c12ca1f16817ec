/**
 * Worked examples of the parse and the search on small concrete menus: the
 * Breakfast/Lunch page, and keyword forms and matches on single items.
 *
 * Facts about string literals are each kept in a lemma of their own, so
 * that no proof has to unfold a literal further than it needs.
 */
module Scenarios {
  import opened Seqs
  import opened OrderedDicts
  import opened Text
  import opened MenuParser
  import opened FoodSearch

  const Breakfast: seq<string> := ["Scrambled Eggs", "Bacon"]
  const Lunch: seq<string> := ["Apple Pie", "Bacon"]

  /** A menu table with a Breakfast and a Lunch section. */
  function Table(): seq<Token> {
    [Category("Breakfast"), Items(Breakfast), Category("Lunch"), Items(Lunch)]
  }

  /** The dict the table should parse to. */
  function TableMenu(): Menu {
    Dict(["Breakfast", "Lunch"], map["Breakfast" := Breakfast, "Lunch" := Lunch])
  }

  // ----- parsing the table -----

  lemma ParseSnocItems(tokens: seq<Token>, texts: seq<string>)
    ensures Parse(tokens + [Items(texts)]) == AddTexts(Parse(tokens), texts)
  {
    var ext := tokens + [Items(texts)];
    assert ext[..|ext| - 1] == tokens;
  }

  lemma AppendNewBreakfast()
    ensures AppendNew([], Breakfast) == Breakfast
  {
    assert Breakfast[..1][..0] == [];
    assert Breakfast[..1] == [Breakfast[0]];
  }

  lemma ParseFirstMarker()
    ensures Parse([Category("Breakfast")]) ==
      ParseState(Some("Breakfast"), Dict(["Breakfast"], map["Breakfast" := []]), {})
  {
    ParseSnocCategory([], "Breakfast");
    assert [] + [Category("Breakfast")] == [Category("Breakfast")];
    var none: map<string, seq<string>> := map[];
    assert none["Breakfast" := []] == map["Breakfast" := []];
  }

  lemma ParseBreakfast()
    ensures Parse(Table()[..2]).current == Some("Breakfast")
    ensures Parse(Table()[..2]).menu == Dict(["Breakfast"], map["Breakfast" := Breakfast])
  {
    var first: seq<Token> := [Category("Breakfast")];
    assert Table()[..2] == first + [Items(Breakfast)];
    ParseFirstMarker();
    ParseSnocItems(first, Breakfast);
    AddTextsEffect(Parse(first), Breakfast);
    AppendNewBreakfast();
    assert Parse(Table()[..2]).menu.vals == map["Breakfast" := Breakfast];
  }

  lemma ParseLunchMarker()
    ensures Parse(Table()[..3]).current == Some("Lunch")
    ensures Parse(Table()[..3]).menu ==
      Dict(["Breakfast", "Lunch"], map["Breakfast" := Breakfast, "Lunch" := []])
  {
    assert Table()[..3] == Table()[..2] + [Category("Lunch")];
    ParseBreakfast();
    ParseSnocCategory(Table()[..2], "Lunch");
  }

  lemma AddLunch(s: ParseState)
    requires Tracked(s) && s.current == Some("Lunch")
    requires s.menu == Dict(["Breakfast", "Lunch"], map["Breakfast" := Breakfast, "Lunch" := []])
    ensures AddTexts(s, Lunch).menu == TableMenu()
  {
    assert Lunch[..1][..0] == [] && Lunch[..1] == ["Apple Pie"];
    var s1 := AddText(s, "Apple Pie");
    assert AddTexts(s, Lunch[..1]) == s1;
    var m0: map<string, seq<string>> := map["Breakfast" := Breakfast, "Lunch" := []];
    var m1 := map["Breakfast" := Breakfast, "Lunch" := ["Apple Pie"]];
    assert [] + ["Apple Pie"] == ["Apple Pie"];
    assert m0["Lunch" := ["Apple Pie"]] == m1;
    assert s1.menu == Dict(["Breakfast", "Lunch"], m1);
    assert "Bacon" !in m1["Lunch"];
    assert ["Apple Pie"] + ["Bacon"] == Lunch;
    assert AddTexts(s, Lunch) == AddText(s1, "Bacon");
    assert m1["Lunch" := ["Apple Pie", "Bacon"]] == map["Breakfast" := Breakfast, "Lunch" := Lunch];
  }

  /** The Breakfast/Lunch table parses to its two sections, "Bacon" listed under both. */
  lemma ParseTable()
    ensures Parse(Table()).menu == TableMenu()
  {
    var upToLunch := Table()[..3];
    assert Table() == upToLunch + [Items(Lunch)];
    ParseLunchMarker();
    ParseSnocItems(upToLunch, Lunch);
    AddLunch(Parse(upToLunch));
  }

  // ----- searching a two-section menu -----

  lemma MatchingItemsPair(x: string, y: string, keyword: string)
    ensures MatchingItems([x, y], keyword) ==
      (if Matches(x, keyword) then [x] else []) + (if Matches(y, keyword) then [y] else [])
  {
    assert [x, y][..1] == [x];
    assert [x][..0] == [];
    assert MatchingItems([x], keyword) == [] + if Matches(x, keyword) then [x] else [];
  }

  lemma MatchingCategoriesPair(k1: string, k2: string, vals: map<string, seq<string>>, keyword: string)
    requires k1 in vals && k2 in vals
    ensures MatchingCategories([k1, k2], vals, keyword) ==
      (if MatchingItems(vals[k1], keyword) != [] then [k1] else []) +
      (if MatchingItems(vals[k2], keyword) != [] then [k2] else [])
  {
    assert [k1, k2][..1] == [k1];
    assert [k1][..0] == [];
    assert MatchingCategories([k1], vals, keyword) ==
      [] + if MatchingItems(vals[k1], keyword) != [] then [k1] else [];
  }

  lemma SearchBoth(k1: string, k2: string, v1: seq<string>, v2: seq<string>, keyword: string)
    requires k1 != k2
    requires MatchingItems(v1, keyword) != [] && MatchingItems(v2, keyword) != []
    ensures Search(Dict([k1, k2], map[k1 := v1, k2 := v2]), keyword) ==
      Some(Dict([k1, k2], map[k1 := MatchingItems(v1, keyword), k2 := MatchingItems(v2, keyword)]))
  {
    var menu := Dict([k1, k2], map[k1 := v1, k2 := v2]);
    MatchingCategoriesPair(k1, k2, menu.vals, keyword);
    var results := Dict([k1, k2], map[k1 := MatchingItems(v1, keyword), k2 := MatchingItems(v2, keyword)]);
    SearchOfResults(menu, keyword, results);
  }

  lemma SearchSecond(k1: string, k2: string, v1: seq<string>, v2: seq<string>, keyword: string)
    requires k1 != k2
    requires MatchingItems(v1, keyword) == [] && MatchingItems(v2, keyword) != []
    ensures Search(Dict([k1, k2], map[k1 := v1, k2 := v2]), keyword) ==
      Some(Dict([k2], map[k2 := MatchingItems(v2, keyword)]))
  {
    var menu := Dict([k1, k2], map[k1 := v1, k2 := v2]);
    MatchingCategoriesPair(k1, k2, menu.vals, keyword);
    var results := Dict([k2], map[k2 := MatchingItems(v2, keyword)]);
    SearchOfResults(menu, keyword, results);
  }

  lemma SearchNeither(k1: string, k2: string, v1: seq<string>, v2: seq<string>, keyword: string)
    requires k1 != k2
    requires MatchingItems(v1, keyword) == [] && MatchingItems(v2, keyword) == []
    ensures Search(Dict([k1, k2], map[k1 := v1, k2 := v2]), keyword) == None
  {
    MatchingCategoriesPair(k1, k2, map[k1 := v1, k2 := v2], keyword);
  }

  // ----- matching single items -----

  /** An item matches when the lower-cased keyword occurs in the lower-cased item. */
  lemma MatchAt(item: string, keyword: string, li: string, lk: string, i: int)
    requires Lower(item) == li && Lower(keyword) == lk && OccursAt(lk, li, i)
    ensures Matches(item, keyword)
  {
    IsSubstringAt(lk, li);
    MatchesIsSubstring(item, keyword);
  }

  /** An item does not match when the lower-cased keyword has a character the lower-cased item lacks. */
  lemma NoMatchByChar(item: string, keyword: string, li: string, lk: string, c: char)
    requires Lower(item) == li && Lower(keyword) == lk && c in lk && c !in li
    ensures !Matches(item, keyword)
  {
    IsSubstringAt(lk, li);
    MatchesIsSubstring(item, keyword);
  }

  lemma LowerEggs()
    ensures Lower("Scrambled Eggs") == "scrambled eggs"
  {
    LowerAt("Scrambled Eggs");
  }

  lemma LowerBacon()
    ensures Lower("Bacon") == "bacon"
  {
    LowerAt("Bacon");
  }

  lemma LowerApplePie()
    ensures Lower("Apple Pie") == "apple pie"
  {
    LowerAt("Apple Pie");
  }

  lemma LowerBakedApples()
    ensures Lower("Baked Apples") == "baked apples"
  {
    LowerAt("Baked Apples");
  }

  lemma LowerPineappleCake()
    ensures Lower("Pineapple Cake") == "pineapple cake"
  {
    LowerAt("Pineapple Cake");
  }

  lemma LowerKeyword(k: string)
    requires k == "bacon" || k == "pie" || k == "sushi" || k == "apple" || k == "apples"
    ensures Lower(k) == k
  {
    LowerFixed(k);
  }

  lemma CharFacts()
    ensures 'o' in "bacon" && 'o' !in "scrambled eggs" && 'o' !in "apple pie"
    ensures 'i' in "pie" && 'i' !in "scrambled eggs" && 'i' !in "bacon"
    ensures 'u' in "sushi" && 'u' !in "scrambled eggs" && 'u' !in "bacon" && 'u' !in "apple pie"
  {
  }

  lemma OccurrenceFacts()
    ensures OccursAt("bacon", "bacon", 0)
    ensures OccursAt("pie", "apple pie", 6)
    ensures OccursAt("apple", "baked apples", 6)
    ensures OccursAt("apple", "pineapple cake", 4)
  {
    assert "apple pie"[6..9] == "pie";
    assert "baked apples"[6..11] == "apple";
    assert "pineapple cake"[4..9] == "apple";
  }

  lemma BaconItems()
    ensures !Matches("Scrambled Eggs", "bacon") && Matches("Bacon", "bacon") && !Matches("Apple Pie", "bacon")
  {
    LowerEggs();
    LowerBacon();
    LowerApplePie();
    LowerKeyword("bacon");
    CharFacts();
    OccurrenceFacts();
    NoMatchByChar("Scrambled Eggs", "bacon", "scrambled eggs", "bacon", 'o');
    MatchAt("Bacon", "bacon", "bacon", "bacon", 0);
    NoMatchByChar("Apple Pie", "bacon", "apple pie", "bacon", 'o');
  }

  lemma PieItems()
    ensures !Matches("Scrambled Eggs", "pie") && !Matches("Bacon", "pie") && Matches("Apple Pie", "pie")
  {
    LowerEggs();
    LowerBacon();
    LowerApplePie();
    LowerKeyword("pie");
    CharFacts();
    OccurrenceFacts();
    NoMatchByChar("Scrambled Eggs", "pie", "scrambled eggs", "pie", 'i');
    NoMatchByChar("Bacon", "pie", "bacon", "pie", 'i');
    MatchAt("Apple Pie", "pie", "apple pie", "pie", 6);
  }

  lemma SushiItems()
    ensures !Matches("Scrambled Eggs", "sushi") && !Matches("Bacon", "sushi") && !Matches("Apple Pie", "sushi")
  {
    LowerEggs();
    LowerBacon();
    LowerApplePie();
    LowerKeyword("sushi");
    CharFacts();
    NoMatchByChar("Scrambled Eggs", "sushi", "scrambled eggs", "sushi", 'u');
    NoMatchByChar("Bacon", "sushi", "bacon", "sushi", 'u');
    NoMatchByChar("Apple Pie", "sushi", "apple pie", "sushi", 'u');
  }

  // ----- the scenario -----

  lemma BaconLists()
    ensures MatchingItems(Breakfast, "bacon") == ["Bacon"]
    ensures MatchingItems(Lunch, "bacon") == ["Bacon"]
  {
    BaconItems();
    MatchingItemsPair("Scrambled Eggs", "Bacon", "bacon");
    MatchingItemsPair("Apple Pie", "Bacon", "bacon");
    assert [] + ["Bacon"] == ["Bacon"];
  }

  /** "bacon" is found under both sections. */
  lemma SearchTableBacon()
    ensures Search(TableMenu(), "bacon") ==
      Some(Dict(["Breakfast", "Lunch"], map["Breakfast" := ["Bacon"], "Lunch" := ["Bacon"]]))
  {
    BaconLists();
    SearchBoth("Breakfast", "Lunch", Breakfast, Lunch, "bacon");
  }

  /** "pie" is found only under Lunch. */
  lemma SearchTablePie()
    ensures Search(TableMenu(), "pie") == Some(Dict(["Lunch"], map["Lunch" := ["Apple Pie"]]))
  {
    PieItems();
    MatchingItemsPair("Scrambled Eggs", "Bacon", "pie");
    MatchingItemsPair("Apple Pie", "Bacon", "pie");
    assert ["Apple Pie"] + [] == ["Apple Pie"];
    SearchSecond("Breakfast", "Lunch", Breakfast, Lunch, "pie");
  }

  /** "sushi" is not served: the search gives `None`. */
  lemma SearchTableSushi()
    ensures Search(TableMenu(), "sushi") == None
  {
    SushiItems();
    MatchingItemsPair("Scrambled Eggs", "Bacon", "sushi");
    MatchingItemsPair("Apple Pie", "Bacon", "sushi");
    SearchNeither("Breakfast", "Lunch", Breakfast, Lunch, "sushi");
  }

  // ----- keyword forms and item matches -----

  /** "apples" and "apple" give the same forms. */
  lemma NormalizeApples()
    ensures Normalize("apples") == Forms("apple", "apples")
    ensures Normalize("apple") == Forms("apple", "apples")
  {
    LowerKeyword("apples");
    LowerKeyword("apple");
    assert "apples"[..5] == "apple";
  }

  /** Matching is substring containment, not whole words. */
  lemma AppleMatches()
    ensures Matches("Baked Apples", "apple")
    ensures Matches("Pineapple Cake", "apple")
  {
    LowerBakedApples();
    LowerPineappleCake();
    LowerKeyword("apple");
    OccurrenceFacts();
    MatchAt("Baked Apples", "apple", "baked apples", "apple", 6);
    MatchAt("Pineapple Cake", "apple", "pineapple cake", "apple", 4);
  }

  /**
   * The derived singular is never consulted: the keyword "apples" does not
   * match "Apple Pie", although its singular "apple" occurs in it.
   */
  lemma ApplesMissesApplePie()
    ensures Normalize("apples").singular == "apple"
    ensures !Matches("Apple Pie", "apples")
  {
    NormalizeApples();
    LowerApplePie();
    IsSubstringAt("apples", "apple pie");
    MatchesIsSubstring("Apple Pie", "apples");
  }
}
