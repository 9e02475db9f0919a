/**
 * The inventory manager (inventory.py): an in-memory list of shoes that is
 * written back to the CSV file after every change.
 */
module Inventory {
  import opened Wrappers
  import opened Strings
  import opened Models
  import opened DataStorage

  // Searching

  /** A normalised search: lower-cased, stripped text filters (empty means
    * "any") and an optional exact size. */
  datatype Query = Query(brand: string, model: string, color: string, size: Option<Size>)

  /** `(text or "").strip().lower()`: an absent filter is the empty one. */
  function QueryText(text: Option<string>): (q: string)
    ensures IsTrimmed(q)
    ensures text.None? ==> q == []
  {
    var t := Trim(text.GetOr(""));
    LowerKeepsSpace(t);
    Lower(t)
  }

  /** A query text has nothing left to lower-case. */
  lemma QueryTextLower(text: Option<string>)
    ensures Lower(QueryText(text)) == QueryText(text)
  {
    LowerIdempotent(Trim(text.GetOr("")));
  }

  /** The filters `search` builds from its four arguments: stripped,
    * lower-case text filters and the size as given. */
  function MakeQuery(brand: Option<string>, model: Option<string>, color: Option<string>, size: Option<Size>): (q: Query)
    ensures Normalised(q.brand) && Normalised(q.model) && Normalised(q.color)
    ensures q.size == size
  {
    QueryTextLower(brand);
    QueryTextLower(model);
    QueryTextLower(color);
    Query(QueryText(brand), QueryText(model), QueryText(color), size)
  }

  /** A text filter as `search` compares it: no surrounding whitespace and
    * nothing left to lower-case. */
  predicate Normalised(q: string) {
    IsTrimmed(q) && Lower(q) == q
  }

  /** One text filter: an empty one lets every shoe through, any other must
    * occur in the lower-cased field. */
  predicate TextMatches(q: string, field: string)
    ensures q == [] ==> TextMatches(q, field)
  {
    q == [] || Contains(Lower(field), q)
  }

  /** The shoe passes all four checks of the search loop. */
  predicate Matches(shoe: Shoe, q: Query)
    ensures q == Query([], [], [], None) ==> Matches(shoe, q)
  {
    && TextMatches(q.brand, shoe.brand)
    && TextMatches(q.model, shoe.model)
    && TextMatches(q.color, shoe.color)
    && (q.size.None? || shoe.size == q.size.value)
  }

  /** The size filter compares numbers: a matching shoe has the requested
    * size, and a query that names only a size matches exactly the shoes of
    * that size. */
  lemma MatchesSize(shoe: Shoe, q: Query)
    ensures Matches(shoe, q) && q.size.Some? ==> SameValue(shoe.size, q.size.value)
    ensures q.brand == [] && q.model == [] && q.color == [] && q.size.Some? ==>
      (Matches(shoe, q) <==> SameValue(shoe.size, q.size.value))
  {
    if q.size.Some? {
      SizeEqualityIsNumeric(shoe.size, q.size.value);
    }
  }

  /** `Matches` spelled out as the four tests of the search loop. */
  lemma MatchesTests(shoe: Shoe, q: Query)
    ensures Matches(shoe, q) <==>
      && (q.brand == [] || Contains(Lower(shoe.brand), q.brand))
      && (q.model == [] || Contains(Lower(shoe.model), q.model))
      && (q.color == [] || Contains(Lower(shoe.color), q.color))
      && (q.size.None? || shoe.size == q.size.value)
  {
  }

  /** The four tests the search loop applies to one shoe, in order; a
    * failed test skips the shoe. */
  method PassesFilters(shoe: Shoe, brandQ: string, modelQ: string, colorQ: string, size: Option<Size>)
    returns (keep: bool)
    ensures keep <==> Matches(shoe, Query(brandQ, modelQ, colorQ, size))
  {
    MatchesTests(shoe, Query(brandQ, modelQ, colorQ, size));
    if brandQ != [] && !Contains(Lower(shoe.brand), brandQ) {
      return false;
    }
    if modelQ != [] && !Contains(Lower(shoe.model), modelQ) {
      return false;
    }
    if colorQ != [] && !Contains(Lower(shoe.color), colorQ) {
      return false;
    }
    if size.Some? && shoe.size != size.value {
      return false;
    }
    return true;
  }

  /** The shoes that match, in list order. */
  function Filter(shoes: seq<Shoe>, q: Query): (r: seq<Shoe>)
    ensures |r| <= |shoes|
    ensures forall s :: s in r ==> s in shoes && Matches(s, q)
  {
    if shoes == [] then []
    else
      var init := Filter(shoes[..|shoes| - 1], q);
      var last := shoes[|shoes| - 1];
      if Matches(last, q) then init + [last] else init
  }

  /** `a` is `b` with some elements left out, the rest in the same order. */
  predicate Subsequence(a: seq<Shoe>, b: seq<Shoe>)
    decreases |b|
  {
    if a == [] then true
    else if b == [] then false
    else
      (a[|a| - 1] == b[|b| - 1] && Subsequence(a[..|a| - 1], b[..|b| - 1]))
      || Subsequence(a, b[..|b| - 1])
  }

  /** One more shoe is kept or dropped by the search according to whether
    * it matches. */
  lemma FilterSnoc(shoes: seq<Shoe>, q: Query, i: nat)
    requires i < |shoes|
    ensures Filter(shoes[..i + 1], q) == if Matches(shoes[i], q) then Filter(shoes[..i], q) + [shoes[i]] else Filter(shoes[..i], q)
  {
    assert shoes[..i + 1][..i] == shoes[..i];
  }

  /** The search keeps list order. */
  lemma {:induction false} FilterIsSubsequence(shoes: seq<Shoe>, q: Query)
    ensures Subsequence(Filter(shoes, q), shoes)
  {
    if shoes != [] {
      var init := shoes[..|shoes| - 1];
      FilterIsSubsequence(init, q);
      var r := Filter(shoes, q);
      if Matches(shoes[|shoes| - 1], q) {
        assert r[..|r| - 1] == Filter(init, q);
      }
    }
  }

  /** The search keeps every copy of a matching shoe and no copy of any
    * other shoe. */
  lemma {:induction false} FilterCount(shoes: seq<Shoe>, q: Query, s: Shoe)
    ensures multiset(Filter(shoes, q))[s] == if Matches(s, q) then multiset(shoes)[s] else 0
  {
    if shoes != [] {
      var init := shoes[..|shoes| - 1];
      FilterCount(init, q, s);
      assert shoes == init + [shoes[|shoes| - 1]];
    }
  }

  /** When every shoe matches, the search returns the whole list. */
  lemma {:induction false} FilterKeepsAll(shoes: seq<Shoe>, q: Query)
    requires forall i :: 0 <= i < |shoes| ==> Matches(shoes[i], q)
    ensures Filter(shoes, q) == shoes
  {
    if shoes != [] {
      FilterKeepsAll(shoes[..|shoes| - 1], q);
    }
  }

  /** A filter argument that is absent or only whitespace. */
  predicate Blank(text: Option<string>) {
    text.None? || AllSpace(text.value)
  }

  /** A blank filter argument becomes the empty filter. */
  lemma BlankQueryText(text: Option<string>)
    requires Blank(text)
    ensures QueryText(text) == []
  {
    if text.Some? {
      TrimOfPadded(text.value, [], []);
      assert text.value + [] + [] == text.value;
    }
  }

  /** A search without filters, or with blank ones, lists every shoe. */
  lemma UnfilteredSearch(shoes: seq<Shoe>, brand: Option<string>, model: Option<string>, color: Option<string>)
    requires Blank(brand) && Blank(model) && Blank(color)
    ensures Filter(shoes, MakeQuery(brand, model, color, None)) == shoes
  {
    var q := MakeQuery(brand, model, color, None);
    assert q == Query([], [], [], None) by {
      BlankQueryText(brand);
      BlankQueryText(model);
      BlankQueryText(color);
    }
    assert forall i :: 0 <= i < |shoes| ==> Matches(shoes[i], q);
    FilterKeepsAll(shoes, q);
  }

  /** The text filters ignore case on both sides: lower-casing the query
    * text or the shoe's field does not change whether it matches. */
  lemma SearchIgnoresCase(text: string, field: string)
    ensures QueryText(Some(Lower(text))) == QueryText(Some(text))
    ensures TextMatches(QueryText(Some(text)), Lower(field)) == TextMatches(QueryText(Some(text)), field)
  {
    TrimLower(text);
    LowerIdempotent(Trim(text));
    LowerIdempotent(field);
  }

  // Removal

  /** The list after `pop` at the first position holding `shoe`; unchanged
    * when there is none. */
  function RemoveFirst(shoes: seq<Shoe>, shoe: Shoe): (r: seq<Shoe>)
    ensures shoe !in shoes ==> r == shoes
    ensures shoe in shoes ==> |r| == |shoes| - 1
  {
    if shoes == [] then []
    else if shoes[0] == shoe then shoes[1..]
    else [shoes[0]] + RemoveFirst(shoes[1..], shoe)
  }

  /** Removing at the first position that holds the shoe. */
  lemma {:induction false} RemoveFirstAt(shoes: seq<Shoe>, shoe: Shoe, i: nat)
    requires i < |shoes| && shoes[i] == shoe && shoe !in shoes[..i]
    ensures RemoveFirst(shoes, shoe) == shoes[..i] + shoes[i + 1..]
  {
    if i > 0 {
      assert shoes[1..][..i - 1] == shoes[1..i];
      RemoveFirstAt(shoes[1..], shoe, i - 1);
      assert shoes[..i] == [shoes[0]] + shoes[1..i];
    }
  }

  /** Exactly one copy of the shoe goes, if there was one; every other
    * shoe keeps its count. */
  lemma {:induction false} RemoveFirstMultiset(shoes: seq<Shoe>, shoe: Shoe)
    ensures multiset(RemoveFirst(shoes, shoe)) == multiset(shoes) - multiset{shoe}
  {
    if shoes != [] {
      assert shoes == [shoes[0]] + shoes[1..];
      if shoes[0] != shoe {
        RemoveFirstMultiset(shoes[1..], shoe);
      }
    }
  }

  /** The manager of one CSV file. `shoes` is the in-memory list. */
  class InventoryManager {
    const file: CsvFile
    var shoes: seq<Shoe>

    /** `__init__`: remember the file, start with an empty list. Nothing is
      * read until `Load`. */
    constructor (file: CsvFile)
      ensures this.file == file && shoes == []
    {
      this.file := file;
      shoes := [];
    }

    /** The file holds exactly the rows a save of the current list writes. */
    predicate Persisted()
      reads this, file
    {
      file.present && file.rows == SavedRows(shoes)
    }

    /** A file that holds the list loads back as that list, when every shoe
      * is storable. */
    lemma PersistedLoadsBack()
      requires Persisted()
      requires forall i :: 0 <= i < |shoes| ==> Storable(shoes[i])
      ensures LoadResult(file.rows) == Ok(shoes)
    {
      SaveLoadRoundTrip(shoes);
    }

    /** `load`: replace the list with what the file holds; on an error the
      * list stays as it was. */
    method Load() returns (r: Result<(), LoadError>)
      modifies this, file
      ensures file.present
      ensures file.rows == if old(file.present) then old(file.rows) else [CsvHeaders]
      ensures r.Ok? <==> LoadResult(file.rows).Ok?
      ensures r.Ok? ==> shoes == LoadResult(file.rows).value
      ensures r.Err? ==> r.error == LoadResult(file.rows).error && shoes == old(shoes)
    {
      var loaded := file.LoadInventory();
      match loaded
      case Ok(v) =>
        shoes := v;
        r := Ok(());
      case Err(e) =>
        r := Err(e);
    }

    /** `list_all`: a copy of the list. */
    method ListAll() returns (r: seq<Shoe>)
      ensures r == shoes
    {
      r := shoes;
    }

    /** `add_shoe`: append and save. No check is made on the shoe. */
    method AddShoe(shoe: Shoe)
      modifies this, file
      ensures shoes == old(shoes) + [shoe]
      ensures Persisted()
      ensures (forall i :: 0 <= i < |shoes| ==> Storable(shoes[i])) ==> LoadResult(file.rows) == Ok(shoes)
    {
      shoes := shoes + [shoe];
      file.SaveInventory(shoes);
      if forall i :: 0 <= i < |shoes| ==> Storable(shoes[i]) {
        SaveLoadRoundTrip(shoes);
      }
    }

    /** `remove_shoe`: drop the first shoe equal to the given one and save;
      * report whether there was one. Nothing is saved when there was not. */
    method RemoveShoe(shoe: Shoe) returns (removed: bool)
      modifies this, file
      ensures removed == (shoe in old(shoes))
      ensures removed ==> shoes == RemoveFirst(old(shoes), shoe) && Persisted()
      ensures !removed ==> shoes == old(shoes) && unchanged(file)
    {
      var idx := 0;
      while idx < |shoes|
        invariant 0 <= idx <= |shoes|
        invariant shoe !in shoes[..idx]
      {
        if shoes[idx] == shoe {
          RemoveFirstAt(shoes, shoe, idx);
          shoes := shoes[..idx] + shoes[idx + 1..];
          file.SaveInventory(shoes);
          return true;
        }
        assert shoes[..idx + 1] == shoes[..idx] + [shoes[idx]];
        idx := idx + 1;
      }
      assert shoes[..idx] == shoes;
      return false;
    }

    /** `clear_inventory`: empty the list and save. */
    method ClearInventory()
      modifies this, file
      ensures shoes == []
      ensures Persisted()
      ensures LoadResult(file.rows) == Ok([])
    {
      shoes := [];
      file.SaveInventory(shoes);
      SaveLoadRoundTrip(shoes);
    }

    /** `search`: the shoes passing every given filter, in list order. */
    method Search(brand: Option<string>, model: Option<string>, color: Option<string>, size: Option<Size>)
      returns (results: seq<Shoe>)
      ensures results == Filter(shoes, MakeQuery(brand, model, color, size))
    {
      var brandQ := QueryText(brand);
      var modelQ := QueryText(model);
      var colorQ := QueryText(color);
      ghost var q := Query(brandQ, modelQ, colorQ, size);
      results := [];
      for i := 0 to |shoes|
        invariant results == Filter(shoes[..i], q)
      {
        var shoe := shoes[i];
        FilterSnoc(shoes, q, i);
        var keep := PassesFilters(shoe, brandQ, modelQ, colorQ, size);
        if !keep {
          continue;
        }
        results := results + [shoe];
      }
      assert shoes[..|shoes|] == shoes;
      assert q == MakeQuery(brand, model, color, size);
    }
  }
}
