/**
 * `search_food`: the keyword is lower-cased and given a naive plural form;
 * the categories of a parsed menu are scanned in order, and each item whose
 * lower-cased name contains the keyword or its plural is collected, in
 * order, under its category in a fresh insertion-ordered dict.
 */
module FoodSearch {
  import opened Seqs
  import opened OrderedDicts
  import opened Text
  import opened MenuParser

  /** The singular and plural forms derived from a keyword. */
  datatype Forms = Forms(singular: string, plural: string)

  /**
   * The forms of an already lower-cased keyword `k`: one ending in "s" is
   * taken as the plural and loses that "s" for the singular; any other is
   * the singular and gains an "s" for the plural.
   */
  function Inflect(k: string): (f: Forms)
    ensures f.plural == f.singular + "s"
    ensures k == f.singular || k == f.plural
    ensures k == f.plural <==> EndsWith(k, "s")
  {
    if EndsWith(k, "s") then
      assert k == k[..|k| - 1] + "s";
      Forms(k[..|k| - 1], k)
    else
      Forms(k, k + "s")
  }

  /** The forms `search_food` derives from the keyword it is given. */
  function Normalize(keyword: string): (f: Forms)
    ensures f.plural == f.singular + "s"
    ensures Lower(keyword) == f.singular || Lower(keyword) == f.plural
    ensures Lower(keyword) == f.plural <==> EndsWith(Lower(keyword), "s")
  {
    Inflect(Lower(keyword))
  }

  /**
   * The test the search applies to an item: the lower-cased keyword or the
   * plural form occurs in the lower-cased item. The singular form is not
   * consulted.
   */
  predicate Matches(item: string, keyword: string) {
    IsSubstring(Lower(keyword), Lower(item)) || IsSubstring(Normalize(keyword).plural, Lower(item))
  }

  /** The plural disjunct is redundant: an item matches exactly when it contains the lower-cased keyword. */
  lemma MatchesIsSubstring(item: string, keyword: string)
    ensures Matches(item, keyword) <==> IsSubstring(Lower(keyword), Lower(item))
  {
    var f := Normalize(keyword);
    if IsSubstring(f.plural, Lower(item)) && f.plural != Lower(keyword) {
      IsSubstringOfLonger(Lower(keyword), "s", Lower(item));
    }
  }

  /** The items of a list that match, in their original order. */
  function MatchingItems(items: seq<string>, keyword: string): seq<string> {
    if items == [] then []
    else
      var init := items[..|items| - 1];
      var x := items[|items| - 1];
      assert items == init + [x];
      MatchingItems(init, keyword) + if Matches(x, keyword) then [x] else []
  }

  /** An item is kept exactly when it is in the list and matches. */
  lemma {:induction false} MatchingItemsMembers(items: seq<string>, keyword: string, x: string)
    ensures x in MatchingItems(items, keyword) <==> x in items && Matches(x, keyword)
  {
    if items != [] {
      var init := items[..|items| - 1];
      MatchingItemsMembers(init, keyword, x);
      assert items == init + [items[|items| - 1]];
    }
  }

  /** The categories, in menu order, with at least one matching item. */
  function MatchingCategories(keys: seq<string>, vals: map<string, seq<string>>, keyword: string): (r: seq<string>)
    requires forall k :: k in keys ==> k in vals
    ensures forall k :: k in r ==> k in keys
    ensures Distinct(keys) ==> Distinct(r)
  {
    if keys == [] then []
    else
      var init := keys[..|keys| - 1];
      var k := keys[|keys| - 1];
      assert keys == init + [k];
      assert Distinct(keys) ==> Distinct(init) && k !in init;
      MatchingCategories(init, vals, keyword) + if MatchingItems(vals[k], keyword) != [] then [k] else []
  }

  /** A category is kept exactly when it is listed and some item of it matches. */
  lemma {:induction false} MatchingCategoriesMembers(keys: seq<string>, vals: map<string, seq<string>>, keyword: string, k: string)
    requires forall k :: k in keys ==> k in vals
    ensures k in MatchingCategories(keys, vals, keyword) <==> k in keys && MatchingItems(vals[k], keyword) != []
  {
    if keys != [] {
      var init := keys[..|keys| - 1];
      MatchingCategoriesMembers(init, vals, keyword, k);
      assert keys == init + [keys[|keys| - 1]];
    }
  }

  /**
   * What `search_food` returns: `None` when nothing matches, otherwise the
   * matching categories in menu order, each with its matching items.
   */
  function Search(menu: Menu, keyword: string): (r: Option<Menu>)
    requires menu.Valid()
    ensures r.Some? ==> r.value.Valid() && r.value.keys != []
    ensures r.Some? ==> forall c :: c in r.value.keys ==> c in menu.keys
  {
    var cats := MatchingCategories(menu.keys, menu.vals, keyword);
    if cats == [] then None
    else Some(Dict(cats, map c | c in cats :: MatchingItems(menu.vals[c], keyword)))
  }

  /** The list `results` already holds for `category`, `[]` when it has none. */
  function Previous(results: Menu, category: string): seq<string> {
    if category in results.vals then results.vals[category] else []
  }

  /**
   * `results` once the matches `found` of one category's items have been
   * appended under `category`; the category is only opened when there is a
   * match.
   */
  function WithMatches(results: Menu, category: string, found: seq<string>): (r: Menu)
    requires results.Valid()
    ensures r.Valid()
  {
    if found == [] then results else Put(results, category, Previous(results, category) + found)
  }

  /**
   * Appending a match under `category`, opening it first when it is still
   * absent, gives the result for the longer list of matches.
   */
  lemma AppendMatch(prior: Menu, category: string, found: seq<string>, item: string, results: Menu)
    requires prior.Valid()
    requires results == WithMatches(prior, category, found)
    ensures var ready := if category !in results.vals then Put(results, category, []) else results;
      && category in ready.vals
      && Put(ready, category, ready.vals[category] + [item]) == WithMatches(prior, category, found + [item])
  {
    var p := Previous(prior, category);
    if found == [] {
      assert [] + [item] == [item];
      if category !in prior.vals {
        PutTwice(prior, category, [], p + [item]);
      }
    } else {
      assert (p + found) + [item] == p + (found + [item]);
      PutTwice(prior, category, p + found, p + (found + [item]));
    }
  }

  /** Scanning one more item extends the matches by that item exactly when it matches. */
  lemma MatchingItemsStep(items: seq<string>, j: nat, keyword: string)
    requires j < |items|
    ensures Matches(items[j], keyword) ==> MatchingItems(items[..j + 1], keyword) == MatchingItems(items[..j], keyword) + [items[j]]
    ensures !Matches(items[j], keyword) ==> MatchingItems(items[..j + 1], keyword) == MatchingItems(items[..j], keyword)
  {
    assert items[..j + 1][..j] == items[..j];
    assert MatchingItems(items[..j], keyword) + [] == MatchingItems(items[..j], keyword);
  }

  /** Finishing a category extends the result by that category exactly when it had a match. */
  lemma WithMatchesCategory(prior: Menu, menu: Menu, keyword: string, i: nat)
    requires menu.Valid() && i < |menu.keys|
    requires prior.Valid()
    requires prior.keys == MatchingCategories(menu.keys[..i], menu.vals, keyword)
    requires forall c :: c in prior.vals ==> prior.vals[c] == MatchingItems(menu.vals[c], keyword)
    ensures var category := menu.keys[i];
      var r := WithMatches(prior, category, MatchingItems(menu.vals[category], keyword));
      && r.keys == MatchingCategories(menu.keys[..i + 1], menu.vals, keyword)
      && forall c :: c in r.vals ==> r.vals[c] == MatchingItems(menu.vals[c], keyword)
  {
    var category := menu.keys[i];
    var found := MatchingItems(menu.vals[category], keyword);
    assert menu.keys[..i + 1][..i] == menu.keys[..i];
    assert MatchingCategories(menu.keys[..i + 1], menu.vals, keyword) ==
      prior.keys + if found != [] then [category] else [];
    assert category !in menu.keys[..i];
    assert category !in prior.vals;
    assert Previous(prior, category) + found == found;
  }

  /** The loop's test, written with the forms computed before the loop, is Matches. */
  lemma MatchesTest(item: string, keyword: string, lowered: string, plural: string)
    requires lowered == Lower(keyword) && plural == Normalize(keyword).plural
    ensures Matches(item, keyword) == (IsSubstring(lowered, Lower(item)) || IsSubstring(plural, Lower(item)))
  {
  }

  /** The dict the loops end with determines the search result. */
  lemma SearchOfResults(menu: Menu, keyword: string, results: Menu)
    requires menu.Valid() && results.Valid()
    requires results.keys == MatchingCategories(menu.keys, menu.vals, keyword)
    requires forall c :: c in results.vals ==> results.vals[c] == MatchingItems(menu.vals[c], keyword)
    ensures Search(menu, keyword) == if results.keys != [] then Some(results) else None
  {
    var cats := MatchingCategories(menu.keys, menu.vals, keyword);
    if cats != [] {
      assert results.vals == map c | c in cats :: MatchingItems(menu.vals[c], keyword);
    }
  }

  /**
   * The inner loop of `search_food`: the items of one category are scanned
   * in order and each match is appended under the category, which is opened
   * with `[]` at its first match. `lowered` and `plural` are the forms
   * computed from the keyword before the loops.
   */
  method CollectMatches(results: Menu, category: string, items: seq<string>,
                        lowered: string, plural: string, ghost keyword: string)
    returns (r: Menu)
    requires results.Valid()
    requires lowered == Lower(keyword) && plural == Normalize(keyword).plural
    ensures r == WithMatches(results, category, MatchingItems(items, keyword))
  {
    r := results;
    var j := 0;
    ghost var matched: seq<string> := [];
    assert items[..0] == [];
    while j < |items|
      invariant 0 <= j <= |items|
      invariant matched == MatchingItems(items[..j], keyword)
      invariant r == WithMatches(results, category, matched)
    {
      var item := items[j];
      var itemLower := Lower(item);
      MatchingItemsStep(items, j, keyword);
      MatchesTest(item, keyword, lowered, plural);
      if IsSubstring(lowered, itemLower) || IsSubstring(plural, itemLower) {
        AppendMatch(results, category, matched, item, r);
        if category !in r.vals {
          r := Put(r, category, []);
        }
        r := Put(r, category, r.vals[category] + [item]);
        matched := matched + [item];
        assert matched == MatchingItems(items[..j + 1], keyword);
      } else {
        assert matched == MatchingItems(items[..j + 1], keyword);
      }
      j := j + 1;
      assert matched == MatchingItems(items[..j], keyword);
    }
    assert items[..|items|] == items;
  }

  /** The nested search loops of `search_food`. */
  method SearchFood(menu: Menu, keyword: string) returns (found: Option<Menu>)
    requires menu.Valid()
    ensures found == Search(menu, keyword)
  {
    var lowered := Lower(keyword);
    var singular, plural;
    if EndsWith(lowered, "s") {
      singular, plural := lowered[..|lowered| - 1], lowered;
    } else {
      singular, plural := lowered, lowered + "s";
    }
    assert plural == Normalize(keyword).plural by {
      assert lowered == Lower(keyword);
    }

    var results: Menu := Empty();
    var i := 0;
    assert MatchingCategories(menu.keys[..0], menu.vals, keyword) == [];
    while i < |menu.keys|
      invariant 0 <= i <= |menu.keys|
      invariant results.Valid()
      invariant results.keys == MatchingCategories(menu.keys[..i], menu.vals, keyword)
      invariant forall c :: c in results.vals ==> results.vals[c] == MatchingItems(menu.vals[c], keyword)
    {
      var category := menu.keys[i];
      ghost var prior := results;
      results := CollectMatches(results, category, menu.vals[category], lowered, plural, keyword);
      WithMatchesCategory(prior, menu, keyword, i);
      i := i + 1;
    }
    assert menu.keys[..|menu.keys|] == menu.keys;
    SearchOfResults(menu, keyword, results);
    if results.keys != [] {
      found := Some(results);
    } else {
      found := None;
    }
  }

  // ----- properties of the search -----

  /** The search gives `None` exactly when no item of any category matches. */
  lemma SearchNoneIffNoMatch(menu: Menu, keyword: string)
    requires menu.Valid()
    ensures Search(menu, keyword).None? <==>
      forall c, x :: c in menu.vals && x in menu.vals[c] ==> !Matches(x, keyword)
  {
    var cats := MatchingCategories(menu.keys, menu.vals, keyword);
    if cats != [] {
      var c := cats[0];
      MatchingCategoriesMembers(menu.keys, menu.vals, keyword, c);
      var x := MatchingItems(menu.vals[c], keyword)[0];
      MatchingItemsMembers(menu.vals[c], keyword, x);
      assert c in menu.vals && x in menu.vals[c] && Matches(x, keyword);
    } else {
      forall c, x | c in menu.vals && x in menu.vals[c]
        ensures !Matches(x, keyword)
      {
        MatchingCategoriesMembers(menu.keys, menu.vals, keyword, c);
        MatchingItemsMembers(menu.vals[c], keyword, x);
      }
    }
  }

  /**
   * A non-`None` result is a well-formed dict whose keys are exactly the
   * categories with a match, in menu order, each mapped to the subsequence
   * of its items that contain the lower-cased keyword, which is not empty.
   */
  lemma SearchResultShape(menu: Menu, keyword: string)
    requires menu.Valid()
    requires Search(menu, keyword).Some?
    ensures Search(menu, keyword).value.Valid()
    ensures Search(menu, keyword).value.keys == MatchingCategories(menu.keys, menu.vals, keyword)
    ensures forall c :: c in Search(menu, keyword).value.vals <==>
      c in menu.vals && exists x :: x in menu.vals[c] && Matches(x, keyword)
    ensures forall c :: c in Search(menu, keyword).value.vals ==>
      Search(menu, keyword).value.vals[c] == MatchingItems(menu.vals[c], keyword) != []
  {
    var r := Search(menu, keyword).value;
    forall c
      ensures c in r.vals <==> c in menu.vals && exists x :: x in menu.vals[c] && Matches(x, keyword)
      ensures c in r.vals ==> r.vals[c] == MatchingItems(menu.vals[c], keyword) != []
    {
      MatchingCategoriesMembers(menu.keys, menu.vals, keyword, c);
      if c in menu.vals {
        var m := MatchingItems(menu.vals[c], keyword);
        if m != [] {
          MatchingItemsMembers(menu.vals[c], keyword, m[0]);
        }
        if exists x :: x in menu.vals[c] && Matches(x, keyword) {
          var x :| x in menu.vals[c] && Matches(x, keyword);
          MatchingItemsMembers(menu.vals[c], keyword, x);
        }
      }
    }
  }

  /**
   * Each list of a non-`None` result holds exactly the category's items that
   * contain the lower-cased keyword; being MatchingItems, it keeps their order.
   */
  lemma SearchResultItems(menu: Menu, keyword: string, c: string, x: string)
    requires menu.Valid()
    requires Search(menu, keyword).Some? && c in Search(menu, keyword).value.vals
    ensures x in Search(menu, keyword).value.vals[c] <==>
      x in menu.vals[c] && IsSubstring(Lower(keyword), Lower(x))
  {
    MatchingCategoriesMembers(menu.keys, menu.vals, keyword, c);
    MatchingItemsMembers(menu.vals[c], keyword, x);
    MatchesIsSubstring(x, keyword);
  }

  /** The forms depend only on the lower-cased keyword: the search is case-insensitive in its keyword. */
  lemma NormalizeIgnoresCase(keyword: string)
    ensures Normalize(Lower(keyword)) == Normalize(keyword)
  {
    LowerIdempotent(keyword);
  }

  /** A lower-case keyword ending in "s" is taken as the plural of the word before the "s". */
  lemma NormalizePlural(w: string)
    requires NoUpper(w)
    ensures Normalize(w + "s") == Forms(w, w + "s")
  {
    var k := w + "s";
    assert NoUpper(k) by {
      forall i | 0 <= i < |k|
        ensures !('A' <= k[i] <= 'Z')
      {
        if i < |w| {
          assert k[i] == w[i];
        }
      }
    }
    LowerFixed(k);
    assert k[|k| - 1..] == "s";
    assert k[..|k| - 1] == w;
  }

  /** Any other lower-case keyword is the singular and gains an "s". */
  lemma NormalizeSingular(w: string)
    requires NoUpper(w) && !EndsWith(w, "s")
    ensures Normalize(w) == Forms(w, w + "s")
  {
    LowerFixed(w);
  }

  /** So a singular that happens to end in "s" is mistaken for a plural: "bus" gives "bu". */
  lemma NormalizeTrailingS()
    ensures Normalize("bus") == Forms("bu", "bus")
  {
    NormalizePlural("bu");
    assert "bu" + "s" == "bus";
  }
}
