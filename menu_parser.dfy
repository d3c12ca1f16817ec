/**
 * The menu reconstruction of `fetch_menu`: the elements of the menu table are
 * visited in document order and folded into an insertion-ordered dict from
 * category name to item list, plus the set of every item text seen.
 *
 * The HTML is abstracted to one token per visited element: an element that
 * contains a category div is a `Category` token (its recipe divs are never
 * looked at), any other element is an `Items` token carrying the trimmed
 * texts of its recipe divs.
 */
module MenuParser {
  import opened Seqs
  import opened OrderedDicts

  datatype Token =
    | Category(name: string)
    | Items(texts: seq<string>)

  /**
   * What fetching a hall page gives: a failure anywhere on the way (network,
   * HTTP status, markup), or the page with its menu table if it has one.
   */
  datatype Page =
    | FetchError
    | Loaded(menuTable: Option<seq<Token>>)

  /** Category name to the items listed under it. */
  type Menu = Dict<seq<string>>

  /** The three variables the parse loop updates. */
  datatype ParseState = ParseState(current: Option<string>, menu: Menu, unique: set<string>)

  /**
   * The menu is a well-formed dict and the current category, once set, is a
   * key of it, so the lookup `menu_data[current_category]` never fails.
   */
  ghost predicate Tracked(s: ParseState) {
    s.menu.Valid() && (s.current.Some? ==> s.current.value in s.menu.vals)
  }

  /** `current_category = None`, `menu_data = {}`, `unique_items = set()` */
  function Start(): (s: ParseState)
    ensures Tracked(s)
  {
    ParseState(None, Empty(), {})
  }

  /**
   * One recipe text: empty texts are dropped; a text is appended to the
   * current category's list only when that category is truthy (set and not
   * "") and does not list it yet; it always joins the unique set.
   */
  function AddText(s: ParseState, text: string): (r: ParseState)
    requires Tracked(s)
    ensures Tracked(r)
  {
    if text == "" then s
    else
      var menu :=
        if s.current.Some? && s.current.value != "" && text !in s.menu.vals[s.current.value]
        then Put(s.menu, s.current.value, s.menu.vals[s.current.value] + [text])
        else s.menu;
      ParseState(s.current, menu, s.unique + {text})
  }

  /** The recipe texts of one element, in order. */
  function AddTexts(s: ParseState, texts: seq<string>): (r: ParseState)
    requires Tracked(s)
    ensures Tracked(r)
  {
    if texts == [] then s else AddText(AddTexts(s, texts[..|texts| - 1]), texts[|texts| - 1])
  }

  /** One element: a category marker resets its category's list to `[]` and makes it current. */
  function Step(s: ParseState, t: Token): (r: ParseState)
    requires Tracked(s)
    ensures Tracked(r)
  {
    match t
    case Category(name) => ParseState(Some(name), Put(s.menu, name, []), s.unique)
    case Items(texts) => AddTexts(s, texts)
  }

  /** The state after the loop has visited `tokens`. */
  function Parse(tokens: seq<Token>): (r: ParseState)
    ensures Tracked(r)
  {
    if tokens == [] then Start() else Step(Parse(tokens[..|tokens| - 1]), tokens[|tokens| - 1])
  }

  /** The loop over the menu table's elements. */
  method ParseMenuTable(tokens: seq<Token>) returns (menu: Menu, unique: set<string>)
    ensures menu == Parse(tokens).menu && unique == Parse(tokens).unique
  {
    var current: Option<string> := None;
    menu := Empty();
    unique := {};
    var i := 0;
    while i < |tokens|
      invariant 0 <= i <= |tokens|
      invariant ParseState(current, menu, unique) == Parse(tokens[..i])
    {
      assert tokens[..i + 1][..i] == tokens[..i];
      match tokens[i] {
        case Category(name) =>
          current := Some(name);
          menu := Put(menu, name, []);
        case Items(texts) =>
          ghost var before := ParseState(current, menu, unique);
          var j := 0;
          while j < |texts|
            invariant 0 <= j <= |texts|
            invariant Tracked(before)
            invariant ParseState(current, menu, unique) == AddTexts(before, texts[..j])
          {
            assert texts[..j + 1][..j] == texts[..j];
            var text := texts[j];
            if text != "" {
              if current.Some? && current.value != "" && text !in menu.vals[current.value] {
                menu := Put(menu, current.value, menu.vals[current.value] + [text]);
              }
              unique := unique + {text};
            }
            j := j + 1;
          }
          assert texts[..|texts|] == texts;
      }
      i := i + 1;
    }
    assert tokens[..|tokens|] == tokens;
  }

  /** The menu `fetch_menu` returns for a page. */
  function MenuOf(page: Page): (m: Menu)
    ensures m.Valid()
  {
    match page
    case FetchError => Empty()
    case Loaded(table) => if table.None? then Empty() else Parse(table.value).menu
  }

  /**
   * `fetch_menu`: a failed fetch or a page without the menu table gives
   * exactly `({}, set())`; otherwise the result of the parse loop.
   */
  method FetchMenu(page: Page) returns (menu: Menu, unique: set<string>)
    ensures page.FetchError? || page.menuTable.None? ==> menu == Empty() && unique == {}
    ensures page.Loaded? && page.menuTable.Some? ==>
      menu == Parse(page.menuTable.value).menu && unique == Parse(page.menuTable.value).unique
    ensures menu == MenuOf(page)
  {
    match page
    case FetchError =>
      menu, unique := Empty(), {};
    case Loaded(table) =>
      if table.None? {
        menu, unique := Empty(), {};
      } else {
        menu, unique := ParseMenuTable(table.value);
      }
  }

  // ---------------------------------------------------------------------
  // A reference description of the parse result, stated over positions in
  // the token sequence rather than as a state machine.
  // ---------------------------------------------------------------------

  /** The names of the category markers, in document order. */
  function Markers(tokens: seq<Token>): seq<string> {
    if tokens == [] then []
    else
      var prev := Markers(tokens[..|tokens| - 1]);
      match tokens[|tokens| - 1]
      case Category(name) => prev + [name]
      case Items(_) => prev
  }

  /** The name of the last category marker, if any. */
  function LastCategory(tokens: seq<Token>): Option<string> {
    if tokens == [] then None
    else
      match tokens[|tokens| - 1]
      case Category(name) => Some(name)
      case Items(_) => LastCategory(tokens[..|tokens| - 1])
  }

  /** The position of the last marker of category `c`, if any. */
  function LastMarker(tokens: seq<Token>, c: string): (r: Option<nat>)
    ensures r.Some? ==> r.value < |tokens| && tokens[r.value] == Category(c)
  {
    if tokens == [] then None
    else if tokens[|tokens| - 1] == Category(c) then Some(|tokens| - 1)
    else LastMarker(tokens[..|tokens| - 1], c)
  }

  /** No category marker at position `k` or later. */
  ghost predicate NoMarkerFrom(tokens: seq<Token>, k: nat) {
    forall j :: k <= j < |tokens| ==> tokens[j].Items?
  }

  /** The item texts from position `k` up to the next category marker. */
  function RunFrom(tokens: seq<Token>, k: nat): seq<string>
    decreases |tokens| - k
  {
    if k >= |tokens| then []
    else
      match tokens[k]
      case Category(_) => []
      case Items(texts) => texts + RunFrom(tokens, k + 1)
  }

  /** `texts` without the empty strings. */
  function NonEmpty(texts: seq<string>): (r: seq<string>)
    ensures forall x :: x in r <==> x in texts && x != ""
  {
    if texts == [] then []
    else
      assert texts == texts[..|texts| - 1] + [texts[|texts| - 1]];
      NonEmpty(texts[..|texts| - 1]) + if texts[|texts| - 1] == "" then [] else [texts[|texts| - 1]]
  }

  /**
   * The list a category ends up with: the distinct non-empty items, in
   * first-seen order, that follow its last marker up to the next marker. The
   * empty category name is falsy, so it never receives an item.
   */
  function FinalItems(tokens: seq<Token>, c: string): seq<string> {
    if c == "" then []
    else
      match MarkerRun(tokens, c)
      case None => []
      case Some(run) => Dedup(NonEmpty(run))
  }

  /** The item texts between the last marker of `c` and the next marker, if `c` has a marker. */
  function MarkerRun(tokens: seq<Token>, c: string): Option<seq<string>> {
    match LastMarker(tokens, c)
    case None => None
    case Some(i) => Some(RunFrom(tokens, i + 1))
  }

  /** Every non-empty recipe text in the table. */
  function AllTexts(tokens: seq<Token>): set<string> {
    if tokens == [] then {}
    else
      var prev := AllTexts(tokens[..|tokens| - 1]);
      match tokens[|tokens| - 1]
      case Category(_) => prev
      case Items(texts) => prev + set x | x in texts && x != ""
  }

  /** The parse state `s` agrees with the reference description of `tokens`. */
  ghost predicate Described(tokens: seq<Token>, s: ParseState) {
    && s.current == LastCategory(tokens)
    && s.menu.keys == Dedup(Markers(tokens))
    && (forall c :: c in s.menu.vals ==> s.menu.vals[c] == FinalItems(tokens, c))
    && s.unique == AllTexts(tokens)
  }

  // ----- helper lemmas for the reference description -----

  /** The effect of appending `texts` one by one to a list, as AddText does. */
  function AppendNew(list: seq<string>, texts: seq<string>): seq<string> {
    if texts == [] then list
    else
      var l := AppendNew(list, texts[..|texts| - 1]);
      var x := texts[|texts| - 1];
      if x == "" || x in l then l else l + [x]
  }

  lemma {:induction false} AddTextsEffect(s: ParseState, texts: seq<string>)
    requires Tracked(s)
    ensures AddTexts(s, texts).current == s.current
    ensures AddTexts(s, texts).menu.keys == s.menu.keys
    ensures forall c :: c in AddTexts(s, texts).menu.vals <==> c in s.menu.vals
    ensures forall c :: c in s.menu.vals ==>
      AddTexts(s, texts).menu.vals[c] ==
        if s.current == Some(c) && c != "" then AppendNew(s.menu.vals[c], texts) else s.menu.vals[c]
    ensures AddTexts(s, texts).unique == s.unique + set x | x in texts && x != ""
  {
    if texts != [] {
      var init := texts[..|texts| - 1];
      AddTextsEffect(s, init);
      assert texts == init + [texts[|texts| - 1]];
      assert (set x | x in texts && x != "") ==
        (set x | x in init && x != "") + (if texts[|texts| - 1] == "" then {} else {texts[|texts| - 1]});
    }
  }

  lemma {:induction false} DedupNonEmptyAppend(run: seq<string>, texts: seq<string>)
    ensures Dedup(NonEmpty(run + texts)) == AppendNew(Dedup(NonEmpty(run)), texts)
  {
    if texts == [] {
      assert run + texts == run;
    } else {
      var init := texts[..|texts| - 1];
      var x := texts[|texts| - 1];
      DedupNonEmptyAppend(run, init);
      assert (run + texts)[..|run + texts| - 1] == run + init;
      assert (run + texts)[|run + texts| - 1] == x;
      var ne := NonEmpty(run + init);
      assert NonEmpty(run + texts) == ne + if x == "" then [] else [x];
      if x != "" {
        DedupSnoc(ne, x);
      } else {
        assert ne + [] == ne;
      }
    }
  }

  lemma {:induction false} RunFromAfterCategory(tokens: seq<Token>, name: string, k: nat)
    requires k <= |tokens|
    ensures RunFrom(tokens + [Category(name)], k) == RunFrom(tokens, k)
    decreases |tokens| - k
  {
    if k < |tokens| {
      assert (tokens + [Category(name)])[k] == tokens[k];
      if tokens[k].Items? {
        RunFromAfterCategory(tokens, name, k + 1);
      }
    }
  }

  lemma {:induction false} RunFromAfterItems(tokens: seq<Token>, texts: seq<string>, k: nat)
    requires k <= |tokens|
    ensures RunFrom(tokens + [Items(texts)], k) ==
      if NoMarkerFrom(tokens, k) then RunFrom(tokens, k) + texts else RunFrom(tokens, k)
    decreases |tokens| - k
  {
    var ext := tokens + [Items(texts)];
    if k == |tokens| {
      assert RunFrom(ext, k) == texts + RunFrom(ext, k + 1);
    } else {
      assert ext[k] == tokens[k];
      if tokens[k].Items? {
        RunFromAfterItems(tokens, texts, k + 1);
        assert NoMarkerFrom(tokens, k) == NoMarkerFrom(tokens, k + 1);
        assert tokens[k].texts + (RunFrom(tokens, k + 1) + texts) ==
          (tokens[k].texts + RunFrom(tokens, k + 1)) + texts;
      } else {
        assert !NoMarkerFrom(tokens, k);
      }
    }
  }

  /** The current category is `c` exactly when no marker follows the last marker of `c`. */
  lemma {:induction false} LastCategoryIsOpenMarker(tokens: seq<Token>, c: string)
    ensures LastCategory(tokens) == Some(c) <==>
      LastMarker(tokens, c).Some? && NoMarkerFrom(tokens, LastMarker(tokens, c).value + 1)
  {
    if tokens != [] {
      var init := tokens[..|tokens| - 1];
      LastCategoryIsOpenMarker(init, c);
      var last := tokens[|tokens| - 1];
      if last.Items? && LastMarker(init, c).Some? {
        var i := LastMarker(init, c).value;
        assert NoMarkerFrom(tokens, i + 1) <==> NoMarkerFrom(init, i + 1) by {
          assert forall j :: i + 1 <= j < |init| ==> tokens[j] == init[j];
        }
      }
    }
  }

  lemma {:induction false} LastMarkerOfMarker(tokens: seq<Token>, c: string)
    ensures LastMarker(tokens, c).Some? <==> c in Markers(tokens)
  {
    if tokens != [] {
      LastMarkerOfMarker(tokens[..|tokens| - 1], c);
    }
  }

  lemma MarkerRunAfterCategory(tokens: seq<Token>, name: string, c: string)
    requires c != name
    ensures MarkerRun(tokens + [Category(name)], c) == MarkerRun(tokens, c)
  {
    var ext := tokens + [Category(name)];
    assert ext[..|ext| - 1] == tokens;
    assert LastMarker(ext, c) == LastMarker(tokens, c);
    if LastMarker(tokens, c).Some? {
      RunFromAfterCategory(tokens, name, LastMarker(tokens, c).value + 1);
    }
  }

  lemma FinalItemsAfterCategory(tokens: seq<Token>, name: string, c: string)
    requires c != name
    ensures FinalItems(tokens + [Category(name)], c) == FinalItems(tokens, c)
  {
    MarkerRunAfterCategory(tokens, name, c);
  }

  /** A category whose marker is the last token lists nothing yet. */
  lemma FinalItemsOfNewMarker(tokens: seq<Token>, name: string)
    ensures FinalItems(tokens + [Category(name)], name) == []
  {
    var ext := tokens + [Category(name)];
    if name != "" {
      assert LastMarker(ext, name) == Some(|tokens|);
      assert MarkerRun(ext, name) == Some([]);
    }
  }

  lemma DescribedAfterCategory(ext: seq<Token>, name: string)
    requires ext != [] && ext[|ext| - 1] == Category(name)
    requires Described(ext[..|ext| - 1], Parse(ext[..|ext| - 1]))
    ensures Described(ext, Parse(ext))
  {
    HeadsAfterCategory(ext, name);
    KeysAfterCategory(ext, name);
    ValsAfterCategory(ext, name);
  }

  lemma HeadsAfterCategory(ext: seq<Token>, name: string)
    requires ext != [] && ext[|ext| - 1] == Category(name)
    requires Parse(ext[..|ext| - 1]).unique == AllTexts(ext[..|ext| - 1])
    ensures Parse(ext).current == LastCategory(ext)
    ensures Parse(ext).unique == AllTexts(ext)
  {
  }

  lemma KeysAfterCategory(ext: seq<Token>, name: string)
    requires ext != [] && ext[|ext| - 1] == Category(name)
    requires Parse(ext[..|ext| - 1]).menu.keys == Dedup(Markers(ext[..|ext| - 1]))
    ensures Parse(ext).menu.keys == Dedup(Markers(ext))
  {
    var tokens := ext[..|ext| - 1];
    var s := Parse(tokens);
    assert Parse(ext).menu == Put(s.menu, name, []);
    assert Markers(ext) == Markers(tokens) + [name];
    DedupSnoc(Markers(tokens), name);
  }

  lemma ValsAfterCategory(ext: seq<Token>, name: string)
    requires ext != [] && ext[|ext| - 1] == Category(name)
    requires var tokens := ext[..|ext| - 1];
      forall c :: c in Parse(tokens).menu.vals ==> Parse(tokens).menu.vals[c] == FinalItems(tokens, c)
    ensures forall c :: c in Parse(ext).menu.vals ==> Parse(ext).menu.vals[c] == FinalItems(ext, c)
  {
    var tokens := ext[..|ext| - 1];
    FrontLast(ext);
    var s := Parse(tokens);
    var r := Parse(ext);
    assert r.menu == Put(s.menu, name, []);
    forall c | c in r.menu.vals
      ensures r.menu.vals[c] == FinalItems(ext, c)
    {
      if c != name {
        FinalItemsAfterCategory(tokens, name, c);
      } else {
        FinalItemsOfNewMarker(tokens, name);
      }
    }
  }

  lemma MarkerRunAfterItems(tokens: seq<Token>, texts: seq<string>, c: string)
    requires c in Markers(tokens)
    ensures MarkerRun(tokens, c).Some?
    ensures MarkerRun(tokens + [Items(texts)], c) ==
      if LastCategory(tokens) == Some(c) then Some(MarkerRun(tokens, c).value + texts)
      else MarkerRun(tokens, c)
  {
    var ext := tokens + [Items(texts)];
    assert ext[..|ext| - 1] == tokens;
    assert LastMarker(ext, c) == LastMarker(tokens, c);
    LastMarkerOfMarker(tokens, c);
    var i := LastMarker(tokens, c).value;
    RunFromAfterItems(tokens, texts, i + 1);
    LastCategoryIsOpenMarker(tokens, c);
  }

  lemma FinalItemsAfterItems(tokens: seq<Token>, texts: seq<string>, c: string)
    requires c in Markers(tokens)
    ensures FinalItems(tokens + [Items(texts)], c) ==
      if LastCategory(tokens) == Some(c) && c != "" then AppendNew(FinalItems(tokens, c), texts)
      else FinalItems(tokens, c)
  {
    MarkerRunAfterItems(tokens, texts, c);
    if c != "" && LastCategory(tokens) == Some(c) {
      DedupNonEmptyAppend(MarkerRun(tokens, c).value, texts);
    }
  }

  lemma DescribedAfterItems(ext: seq<Token>, texts: seq<string>)
    requires ext != [] && ext[|ext| - 1] == Items(texts)
    requires Described(ext[..|ext| - 1], Parse(ext[..|ext| - 1]))
    ensures Described(ext, Parse(ext))
  {
    HeadsAfterItems(ext, texts);
    ValsAfterItems(ext, texts);
  }

  lemma HeadsAfterItems(ext: seq<Token>, texts: seq<string>)
    requires ext != [] && ext[|ext| - 1] == Items(texts)
    requires var tokens := ext[..|ext| - 1];
      && Parse(tokens).current == LastCategory(tokens)
      && Parse(tokens).menu.keys == Dedup(Markers(tokens))
      && Parse(tokens).unique == AllTexts(tokens)
    ensures Parse(ext).current == LastCategory(ext)
    ensures Parse(ext).menu.keys == Dedup(Markers(ext))
    ensures Parse(ext).unique == AllTexts(ext)
  {
    var tokens := ext[..|ext| - 1];
    AddTextsEffect(Parse(tokens), texts);
    assert AllTexts(ext) == AllTexts(tokens) + set x | x in texts && x != "";
  }

  lemma ValsAfterItems(ext: seq<Token>, texts: seq<string>)
    requires ext != [] && ext[|ext| - 1] == Items(texts)
    requires var tokens := ext[..|ext| - 1];
      && Parse(tokens).menu.keys == Dedup(Markers(tokens))
      && Parse(tokens).current == LastCategory(tokens)
      && forall c :: c in Parse(tokens).menu.vals ==> Parse(tokens).menu.vals[c] == FinalItems(tokens, c)
    ensures forall c :: c in Parse(ext).menu.vals ==> Parse(ext).menu.vals[c] == FinalItems(ext, c)
  {
    var tokens := ext[..|ext| - 1];
    FrontLast(ext);
    var s := Parse(tokens);
    var r := Parse(ext);
    assert r == AddTexts(s, texts);
    AddTextsEffect(s, texts);
    forall c | c in r.menu.vals
      ensures r.menu.vals[c] == FinalItems(ext, c)
    {
      assert c in s.menu.keys;
      FinalItemsAfterItems(tokens, texts, c);
    }
  }

  // ----- properties of the parse -----

  /**
   * The parse agrees with the reference description: the current category
   * is the last marker's name, the keys are the distinct marker names in
   * first-seen order (a repeated marker keeps its first position), each list
   * is FinalItems, and the unique set is every non-empty recipe text.
   */
  lemma {:induction false} ParseIsDescribed(tokens: seq<Token>)
    ensures Described(tokens, Parse(tokens))
  {
    if tokens != [] {
      var init := tokens[..|tokens| - 1];
      var last := tokens[|tokens| - 1];
      ParseIsDescribed(init);
      if last.Category? {
        DescribedAfterCategory(tokens, last.name);
      } else {
        DescribedAfterItems(tokens, last.texts);
      }
    }
  }

  /** No category's list holds a duplicate or an empty string. */
  lemma ParseListsDistinctNonEmpty(tokens: seq<Token>)
    ensures forall c :: c in Parse(tokens).menu.vals ==>
      Distinct(Parse(tokens).menu.vals[c]) && "" !in Parse(tokens).menu.vals[c]
  {
    ParseIsDescribed(tokens);
  }

  lemma {:induction false} AppendNewMembers(list: seq<string>, texts: seq<string>, x: string)
    requires x in AppendNew(list, texts)
    ensures x in list || (x in texts && x != "")
  {
    if texts != [] {
      var init := texts[..|texts| - 1];
      if x in AppendNew(list, init) {
        AppendNewMembers(list, init, x);
      }
    }
  }

  /** Every item of every category list is also in the unique set. */
  lemma {:induction false} ParseItemsAreUnique(tokens: seq<Token>)
    ensures forall c, x :: c in Parse(tokens).menu.vals && x in Parse(tokens).menu.vals[c] ==>
      x in Parse(tokens).unique
  {
    if tokens != [] {
      var init := tokens[..|tokens| - 1];
      ParseItemsAreUnique(init);
      var s := Parse(init);
      match tokens[|tokens| - 1]
      case Category(name) =>
      case Items(texts) =>
        AddTextsEffect(s, texts);
        forall c, x | c in Parse(tokens).menu.vals && x in Parse(tokens).menu.vals[c]
          ensures x in Parse(tokens).unique
        {
          if s.current == Some(c) && c != "" {
            AppendNewMembers(s.menu.vals[c], texts, x);
          }
        }
    }
  }

  lemma {:induction false} NoMarkersNoCategoryNames(tokens: seq<Token>)
    requires forall j :: 0 <= j < |tokens| ==> tokens[j].Items?
    ensures Markers(tokens) == []
  {
    if tokens != [] {
      NoMarkersNoCategoryNames(tokens[..|tokens| - 1]);
    }
  }

  /** A table without category markers gives the empty dict, whatever its items. */
  lemma ParseWithoutMarkers(tokens: seq<Token>)
    requires forall j :: 0 <= j < |tokens| ==> tokens[j].Items?
    ensures Parse(tokens).menu == Empty()
    ensures Parse(tokens).unique == AllTexts(tokens)
  {
    ParseIsDescribed(tokens);
    NoMarkersNoCategoryNames(tokens);
    EmptyKeysIsEmpty(Parse(tokens).menu);
  }

  /** Parsing one more element holding a single recipe text applies AddText to that text. */
  lemma ParseSnocText(tokens: seq<Token>, item: string)
    ensures Parse(tokens + [Items([item])]) == AddText(Parse(tokens), item)
  {
    var ext := tokens + [Items([item])];
    assert ext[..|ext| - 1] == tokens;
    assert Parse(ext) == Step(Parse(tokens), Items([item]));
    assert [item][..0] == [];
    assert AddTexts(Parse(tokens), [item]) == AddText(AddTexts(Parse(tokens), []), item);
  }

  /** Parsing one more category marker makes it current and resets its list to `[]`. */
  lemma ParseSnocCategory(tokens: seq<Token>, name: string)
    ensures Parse(tokens + [Category(name)]) == ParseState(Some(name), Put(Parse(tokens).menu, name, []), Parse(tokens).unique)
  {
    var ext := tokens + [Category(name)];
    assert ext[..|ext| - 1] == tokens;
  }

  /**
   * The unique set can hold items that no category lists. Items before the
   * first marker are collected but listed nowhere.
   */
  lemma UniqueBeforeFirstMarker(item: string)
    requires item != ""
    ensures Parse([Items([item])]).menu == Empty()
    ensures Parse([Items([item])]).unique == {item}
  {
    ParseSnocText([], item);
    assert [] + [Items([item])] == [Items([item])];
  }

  /** Items under the empty category name are collected, but the name, being falsy, lists none. */
  lemma UniqueUnderEmptyName(item: string)
    requires item != ""
    ensures Parse([Category(""), Items([item])]).menu == Dict([""], map["" := []])
    ensures Parse([Category(""), Items([item])]).unique == {item}
  {
    var first := [Category("")];
    ParseSnocCategory([], "");
    assert [] + first == first;
    var none: map<string, seq<string>> := map[];
    assert none["" := []] == map["" := []];
    assert Parse(first) == ParseState(Some(""), Dict([""], map["" := []]), {});
    ParseSnocText(first, item);
    assert first + [Items([item])] == [Category(""), Items([item])];
  }

  /** A marker followed by one item lists that item under the marker. */
  lemma ParseMarkerThenItem(name: string, item: string)
    requires name != "" && item != ""
    ensures Parse([Category(name), Items([item])]) == ParseState(Some(name), Dict([name], map[name := [item]]), {item})
  {
    var first := [Category(name)];
    var none: map<string, seq<string>> := map[];
    var reset: map<string, seq<string>> := map[name := []];
    ParseSnocCategory([], name);
    assert [] + first == first;
    assert none[name := []] == reset;
    var started := ParseState(Some(name), Dict([name], reset), {});
    assert Parse(first) == started;
    ParseSnocText(first, item);
    assert [] + [item] == [item];
    OverwriteSingleton(name, [], [item]);
    assert AddText(started, item) == ParseState(Some(name), Put(Dict([name], reset), name, [item]), {item});
    assert first + [Items([item])] == [Category(name), Items([item])];
  }

  /** A repeated marker empties its category's list, but the unique set keeps the items. */
  lemma UniqueAfterRepeatedMarker(name: string, item: string)
    requires name != "" && item != ""
    ensures Parse([Category(name), Items([item]), Category(name)]).menu == Dict([name], map[name := []])
    ensures Parse([Category(name), Items([item]), Category(name)]).unique == {item}
  {
    var two := [Category(name), Items([item])];
    var listed: map<string, seq<string>> := map[name := [item]];
    ParseMarkerThenItem(name, item);
    ParseSnocCategory(two, name);
    OverwriteSingleton(name, [item], []);
    assert Put(Dict([name], listed), name, []) == Dict([name], map[name := []]);
    assert two + [Category(name)] == [Category(name), Items([item]), Category(name)];
  }
}
