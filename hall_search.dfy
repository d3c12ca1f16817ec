/**
 * The script's main loop: every dining-hall link is fetched and searched
 * for the keyword, and each hall whose menu matches is recorded, under the
 * hall name at the same position of the fixed name list, with the search
 * result.
 */
module HallSearch {
  import opened Seqs
  import opened OrderedDicts
  import opened MenuParser
  import opened FoodSearch
  import opened HallLinks

  /** The hall names the links are paired with, by position. */
  const DiningHallNames: seq<string> := [
    "John R. Lewis & College Nine Dining Hall",
    "Cowell & Stevenson Dining Hall",
    "Crown & Merrill Dining Hall",
    "Porter & Kresge Dining Hall",
    "Rachel Carson & Oakes Dining Hall"
  ]

  /** Hall name to search result, in the order the halls were visited. */
  type Halls = Dict<Menu>

  /**
   * How the loop ends: with the collected halls, or with the `IndexError`
   * raised when there are more links than hall names.
   */
  datatype Run = Finished(halls: Halls) | NameIndexError

  /** What searching the page behind each link gives, link by link. */
  function Outcomes(links: seq<string>, respond: string -> Page, keyword: string): (r: seq<Option<Menu>>)
    ensures |r| == |links|
    ensures forall n :: 0 <= n < |links| ==> r[n] == Search(MenuOf(respond(links[n])), keyword)
  {
    if links == [] then []
    else Outcomes(links[..|links| - 1], respond, keyword) + [Search(MenuOf(respond(links[|links| - 1])), keyword)]
  }

  /** The halls recorded once the loop has seen the outcomes `found`, outcome `n` standing for hall `names[n]`. */
  function Recorded(names: seq<string>, found: seq<Option<Menu>>): (r: Halls)
    requires |found| <= |names|
    ensures r.Valid()
  {
    if found == [] then Empty()
    else
      var n := |found| - 1;
      var prev := Recorded(names, found[..n]);
      match found[n]
      case None => prev
      case Some(result) => Put(prev, names[n], result)
  }

  /** One more outcome records its hall exactly when it found something. */
  lemma RecordedStep(names: seq<string>, found: seq<Option<Menu>>, n: nat, next: Option<Menu>)
    requires n < |found| && n < |names| && next == found[n]
    ensures Recorded(names, found[..n + 1]) ==
      if next.Some? then Put(Recorded(names, found[..n]), names[n], next.value)
      else Recorded(names, found[..n])
  {
    assert found[..n + 1][..n] == found[..n];
  }

  /** What the loop does with the links it is given. */
  function Aggregate(links: seq<string>, respond: string -> Page, keyword: string): Run {
    if |links| <= |DiningHallNames| then Finished(Recorded(DiningHallNames, Outcomes(links, respond, keyword)))
    else NameIndexError
  }

  /**
   * The main loop over the links, link `n` standing for hall `names[n]`.
   * The responses of the network are `respond`: the page a request for a
   * link yields; the keyword is what the user typed.
   */
  method SearchAllHalls(names: seq<string>, links: seq<string>, respond: string -> Page, keyword: string)
    returns (run: Run)
    ensures |links| <= |names| ==> run == Finished(Recorded(names, Outcomes(links, respond, keyword)))
    ensures |links| > |names| ==> run == NameIndexError
  {
    ghost var outcomes := Outcomes(links, respond, keyword);
    var halls: Halls := Empty();
    var n := 0;
    while n < |links|
      invariant 0 <= n <= |links| && n <= |names|
      invariant halls == Recorded(names, outcomes[..n])
    {
      if n >= |names| {
        return NameIndexError;
      }
      var menu, unique := FetchMenu(respond(links[n]));
      var found := SearchFood(menu, keyword);
      RecordedStep(names, outcomes, n, found);
      if found.Some? && found.value.keys != [] {
        halls := Put(halls, names[n], found.value);
      }
      n := n + 1;
    }
    assert outcomes[..|links|] == outcomes;
    return Finished(halls);
  }

  /** The script: the links of the main page, searched one by one with the fixed hall names. */
  method RunScript(dir: Directory, respond: string -> Page, keyword: string) returns (run: Run)
    ensures run == Aggregate(Links(dir), respond, keyword)
  {
    var links := FetchLinks(dir);
    run := SearchAllHalls(DiningHallNames, links, respond, keyword);
  }

  // ----- properties of the collected halls -----

  lemma DiningHallNamesDistinct()
    ensures Distinct(DiningHallNames)
  {
    assert DiningHallNames[0][0] == 'J' && DiningHallNames[1][..2] == "Co" && DiningHallNames[2][..2] == "Cr";
    assert DiningHallNames[3][0] == 'P' && DiningHallNames[4][0] == 'R';
  }

  /** The names of the halls whose outcome found something, in link order. */
  function ServingHalls(names: seq<string>, found: seq<Option<Menu>>): (r: seq<string>)
    requires |found| <= |names|
  {
    if found == [] then []
    else
      var n := |found| - 1;
      ServingHalls(names, found[..n]) + if found[n].Some? then [names[n]] else []
  }

  /** Only the names of visited links are recorded. */
  lemma {:induction false} RecordedDomain(names: seq<string>, found: seq<Option<Menu>>)
    requires |found| <= |names|
    ensures forall h :: h in Recorded(names, found).vals ==> h in names[..|found|]
  {
    if found != [] {
      var n := |found| - 1;
      RecordedDomain(names, found[..n]);
      assert names[..n + 1] == names[..n] + [names[n]];
    }
  }

  /** With distinct names, the hall of the last outcome is new to the halls recorded before it. */
  lemma LastNameIsNew(names: seq<string>, found: seq<Option<Menu>>)
    requires 0 < |found| <= |names| && Distinct(names)
    ensures names[|found| - 1] !in Recorded(names, found[..|found| - 1]).vals
  {
    var n := |found| - 1;
    RecordedDomain(names, found[..n]);
    assert names[n] !in names[..n];
  }

  /** With distinct names, the halls are recorded in link order: the keys are ServingHalls. */
  lemma {:induction false} RecordedKeys(names: seq<string>, found: seq<Option<Menu>>)
    requires |found| <= |names| && Distinct(names)
    ensures Recorded(names, found).keys == ServingHalls(names, found)
  {
    if found != [] {
      RecordedKeys(names, found[..|found| - 1]);
      LastNameIsNew(names, found);
    }
  }

  /**
   * With distinct names, the hall of link `n` is recorded exactly when the
   * search of its page found something, and then with that result.
   */
  lemma {:induction false} RecordedHall(names: seq<string>, found: seq<Option<Menu>>, n: nat)
    requires |found| <= |names| && Distinct(names) && n < |found|
    ensures names[n] in Recorded(names, found).vals <==> found[n].Some?
    ensures found[n].Some? ==> Recorded(names, found).vals[names[n]] == found[n].value
  {
    var last := |found| - 1;
    if n < last {
      RecordedHall(names, found[..last], n);
      assert names[n] != names[last];
    } else {
      LastNameIsNew(names, found);
    }
  }

  /**
   * When the script finishes, the halls it reports are, in link order,
   * those whose page the keyword search found something in, each with that
   * search's result.
   */
  lemma FinishedDescribed(links: seq<string>, respond: string -> Page, keyword: string)
    requires |links| <= |DiningHallNames|
    ensures Aggregate(links, respond, keyword).halls.keys ==
      ServingHalls(DiningHallNames, Outcomes(links, respond, keyword))
    ensures forall n :: 0 <= n < |links| ==>
      (DiningHallNames[n] in Aggregate(links, respond, keyword).halls.vals <==>
       Search(MenuOf(respond(links[n])), keyword).Some?)
    ensures forall n :: 0 <= n < |links| && Search(MenuOf(respond(links[n])), keyword).Some? ==>
      Aggregate(links, respond, keyword).halls.vals[DiningHallNames[n]] ==
      Search(MenuOf(respond(links[n])), keyword).value
  {
    var found := Outcomes(links, respond, keyword);
    DiningHallNamesDistinct();
    RecordedKeys(DiningHallNames, found);
    forall n | 0 <= n < |links|
      ensures DiningHallNames[n] in Recorded(DiningHallNames, found).vals <==> found[n].Some?
      ensures found[n].Some? ==> Recorded(DiningHallNames, found).vals[DiningHallNames[n]] == found[n].value
    {
      RecordedHall(DiningHallNames, found, n);
    }
  }

  /**
   * A hall whose page could not be fetched is not recorded, and the loop
   * still runs to the end: every other hall is recorded exactly when its
   * page search found something.
   */
  lemma FailedHallAbsent(links: seq<string>, respond: string -> Page, keyword: string, n: nat)
    requires |links| <= |DiningHallNames| && n < |links|
    requires respond(links[n]) == FetchError
    ensures Aggregate(links, respond, keyword).Finished?
    ensures DiningHallNames[n] !in Aggregate(links, respond, keyword).halls.vals
    ensures forall m :: 0 <= m < |links| && m != n ==>
      (DiningHallNames[m] in Aggregate(links, respond, keyword).halls.vals <==>
       Search(MenuOf(respond(links[m])), keyword).Some?)
  {
    FinishedDescribed(links, respond, keyword);
    assert MenuOf(respond(links[n])) == Empty();
  }

  /** A hall whose page has no table is not recorded either. */
  lemma TablelessHallAbsent(links: seq<string>, respond: string -> Page, keyword: string, n: nat)
    requires |links| <= |DiningHallNames| && n < |links|
    requires respond(links[n]) == Loaded(None)
    ensures DiningHallNames[n] !in Aggregate(links, respond, keyword).halls.vals
  {
    DiningHallNamesDistinct();
    RecordedHall(DiningHallNames, Outcomes(links, respond, keyword), n);
    assert MenuOf(respond(links[n])) == Empty();
  }
}
