/** The sidebar filters of the card page (app.py:99-149): two single-choice
    boxes, a multi-select, and two inclusive number ranges whose widget
    bounds come from the rows still in view. */
module Filters {
  import opened Seqs
  import opened Text
  import opened Cards

  /** The first option of each single-choice box: no filter. */
  const ALL_LABEL: string := "Alle"

  /** Price bounds offered when no row is left (app.py:122-123). */
  const PRICE_EMPTY_HI: int := 1000
  /** Pokémon id bounds offered when no row is left (app.py:138-139). */
  const ID_EMPTY_HI: int := 999

  // ----- single-choice boxes: generation and set -----

  /** A column of text cells, row by row. */
  function Column(rows: seq<Row>, field: Row -> Option<string>): (r: seq<Option<string>>)
    ensures |r| == |rows|
    ensures forall i :: 0 <= i < |rows| ==> r[i] == field(rows[i])
  {
    seq(|rows|, i requires 0 <= i < |rows| => field(rows[i]))
  }

  /** The options of a single-choice box: "Alle", then the column's values
      in order of first appearance, NaN included (`["Alle"] + list(unique())`). */
  function ChoiceOptions(rows: seq<Row>, field: Row -> Option<string>): (r: seq<Option<string>>)
    ensures |r| >= 1 && r[0] == Some(ALL_LABEL)
    ensures NoDup(r[1..])
    ensures forall v :: v in r[1..] <==> exists row :: row in rows && field(row) == v
  {
    var col := Column(rows, field);
    assert forall v :: v in col <==> exists row :: row in rows && field(row) == v by {
      forall v ensures v in col <==> exists row :: row in rows && field(row) == v {
        if v in col {
          var i :| 0 <= i < |col| && col[i] == v;
          assert rows[i] in rows;
        }
      }
    }
    [Some(ALL_LABEL)] + Distinct(col)
  }

  /** A text cell equals the chosen value; a NaN cell or a NaN choice never
      does, since NaN compares unequal to everything. */
  predicate Matches(cell: Option<string>, choice: Option<string>)
  {
    choice.Some? && cell == choice
  }

  /** The mask of a single-choice box: everything for "Alle", otherwise the
      rows whose field equals the choice. */
  function ChoiceKeep(field: Row -> Option<string>, choice: Option<string>): Row -> bool
  {
    (row: Row) => choice == Some(ALL_LABEL) || Matches(field(row), choice)
  }

  /** `df[df[field] == choice]` unless the choice is the label "Alle". */
  function SelectOne(rows: seq<Row>, field: Row -> Option<string>, choice: Option<string>): (r: seq<Row>)
    ensures IsSubseq(r, rows)
    ensures choice == Some(ALL_LABEL) ==> r == rows
    ensures choice != Some(ALL_LABEL) ==>
              forall row :: row in r <==> row in rows && Matches(field(row), choice)
    ensures forall row :: multiset(r)[row] ==
              if choice == Some(ALL_LABEL) || Matches(field(row), choice) then multiset(rows)[row] else 0
  {
    if choice == Some(ALL_LABEL) then SubseqReflexive(rows); rows
    else
      var keep := ChoiceKeep(field, choice);
      FilterIsSubseq(rows, keep);
      forall row ensures multiset(Filter(rows, keep))[row] == if keep(row) then multiset(rows)[row] else 0 {
        FilterCount(rows, keep, row);
      }
      Filter(rows, keep)
  }

  /** The generation box lists "Alle", then each generation of the table
      (NaN included) exactly once (app.py:99-100). */
  function GenerationOptions(rows: seq<Row>): (r: seq<Option<string>>)
    ensures |r| >= 1 && r[0] == Some(ALL_LABEL)
    ensures NoDup(r[1..])
    ensures forall v :: v in r[1..] <==> exists row :: row in rows && row.generation == v
  {
    ChoiceOptions(rows, (row: Row) => row.generation)
  }

  function Generation(row: Row): Option<string> { row.generation }
  function SetName(row: Row): Option<string> { row.setName }

  /** app.py:99-102. */
  function FilterGeneration(rows: seq<Row>, choice: Option<string>): (r: seq<Row>)
    ensures IsSubseq(r, rows)
    ensures choice == Some(ALL_LABEL) ==> r == rows
    ensures choice != Some(ALL_LABEL) ==>
              forall row :: row in r <==> row in rows && choice.Some? && row.generation == choice
    ensures forall row :: multiset(r)[row] ==
              if choice == Some(ALL_LABEL) || Matches(row.generation, choice) then multiset(rows)[row] else 0
  {
    SelectOne(rows, Generation, choice)
  }

  /** The set box lists "Alle", then each set name (NaN included) of the
      rows that passed the generation box exactly once (app.py:104-105). */
  function SetOptions(rows: seq<Row>): (r: seq<Option<string>>)
    ensures |r| >= 1 && r[0] == Some(ALL_LABEL)
    ensures NoDup(r[1..])
    ensures forall v :: v in r[1..] <==> exists row :: row in rows && row.setName == v
  {
    ChoiceOptions(rows, (row: Row) => row.setName)
  }

  /** app.py:104-107. */
  function FilterSet(rows: seq<Row>, choice: Option<string>): (r: seq<Row>)
    ensures IsSubseq(r, rows)
    ensures choice == Some(ALL_LABEL) ==> r == rows
    ensures choice != Some(ALL_LABEL) ==>
              forall row :: row in r <==> row in rows && choice.Some? && row.setName == choice
    ensures forall row :: multiset(r)[row] ==
              if choice == Some(ALL_LABEL) || Matches(row.setName, choice) then multiset(rows)[row] else 0
  {
    SelectOne(rows, SetName, choice)
  }

  // ----- multi-select: rarity -----

  /** The rarities that are present, row by row (`dropna()`). */
  function PresentRarities(rows: seq<Row>): (r: seq<string>)
    ensures forall x :: x in r <==> exists row :: row in rows && row.rarity == Some(x)
  {
    if rows == [] then []
    else
      var rest := PresentRarities(rows[1..]);
      assert forall row :: row in rows <==> row == rows[0] || row in rows[1..];
      match rows[0].rarity
      case Some(x) => [x] + rest
      case None => rest
  }

  /** The rarity options: `sorted(df["rarity"].dropna().unique())`. */
  function RarityOptions(rows: seq<Row>): (r: seq<string>)
    ensures AscendingStrings(r)
    ensures forall x :: x in r <==> exists row :: row in rows && row.rarity == Some(x)
  {
    var d := Distinct(PresentRarities(rows));
    SortDistinctAscending(d);
    SortStrings(d)
  }

  /** The mask of the rarity multi-select: everything for an empty selection,
      otherwise the rows whose rarity is selected. */
  function RarityKeep(selected: seq<string>): Row -> bool
  {
    (row: Row) => selected == [] || (row.rarity.Some? && row.rarity.value in selected)
  }

  /** app.py:111-112: with a non-empty selection keep the rows whose rarity
      is one of the selected ones (`isin`; NaN is in no list); an empty
      selection filters nothing. */
  function FilterRarity(rows: seq<Row>, selected: seq<string>): (r: seq<Row>)
    ensures IsSubseq(r, rows)
    ensures selected == [] ==> r == rows
    ensures selected != [] ==>
              forall row :: row in r <==> row in rows && row.rarity.Some? && row.rarity.value in selected
    ensures forall row :: multiset(r)[row] ==
              if selected == [] || (row.rarity.Some? && row.rarity.value in selected) then multiset(rows)[row] else 0
  {
    if selected == [] then SubseqReflexive(rows); rows
    else
      var keep := RarityKeep(selected);
      FilterIsSubseq(rows, keep);
      forall row ensures multiset(Filter(rows, keep))[row] == if keep(row) then multiset(rows)[row] else 0 {
        FilterCount(rows, keep, row);
      }
      Filter(rows, keep)
  }

  /** Each category box selects with its mask, "Alle" and the empty
      selection included. */
  lemma CategoriesAreSelections(rows: seq<Row>, generation: Option<string>, setName: Option<string>, selected: seq<string>)
    ensures FilterGeneration(rows, generation) == Filter(rows, ChoiceKeep(Generation, generation))
    ensures FilterSet(rows, setName) == Filter(rows, ChoiceKeep(SetName, setName))
    ensures FilterRarity(rows, selected) == Filter(rows, RarityKeep(selected))
  {
  }

  // ----- inclusive number ranges: price and Pokémon id -----

  function Prices(cards: seq<Card>): (r: seq<real>)
    ensures |r| == |cards|
    ensures forall i :: 0 <= i < |cards| ==> r[i] == cards[i].price
  {
    seq(|cards|, i requires 0 <= i < |cards| => cards[i].price)
  }

  function Ids(cards: seq<Card>): (r: seq<real>)
    ensures |r| == |cards|
    ensures forall i :: 0 <= i < |cards| ==> r[i] == cards[i].pokemonId
  {
    seq(|cards|, i requires 0 <= i < |cards| => cards[i].pokemonId)
  }

  /** `df[(df[field] >= lo) & (df[field] <= hi)]`. */
  function SelectRange(cards: seq<Card>, field: Card -> real, lo: int, hi: int): (r: seq<Card>)
    ensures IsSubseq(r, cards)
    ensures forall c :: c in r <==> c in cards && lo as real <= field(c) <= hi as real
    ensures lo > hi ==> r == []
    ensures forall c :: multiset(r)[c] == if lo as real <= field(c) <= hi as real then multiset(cards)[c] else 0
  {
    var keep := (c: Card) => lo as real <= field(c) <= hi as real;
    FilterIsSubseq(cards, keep);
    forall c ensures multiset(Filter(cards, keep))[c] == if keep(c) then multiset(cards)[c] else 0 {
      FilterCount(cards, keep, c);
    }
    if lo > hi then FilterNone(cards, keep); Filter(cards, keep)
    else Filter(cards, keep)
  }

  /** app.py:133. */
  function FilterPrice(cards: seq<Card>, lo: int, hi: int): (r: seq<Card>)
    ensures IsSubseq(r, cards)
    ensures forall c :: c in r <==> c in cards && lo as real <= c.price <= hi as real
    ensures lo > hi ==> r == []
    ensures forall c :: multiset(r)[c] == if lo as real <= c.price <= hi as real then multiset(cards)[c] else 0
  {
    SelectRange(cards, (c: Card) => c.price, lo, hi)
  }

  /** app.py:149. */
  function FilterId(cards: seq<Card>, lo: int, hi: int): (r: seq<Card>)
    ensures IsSubseq(r, cards)
    ensures forall c :: c in r <==> c in cards && lo as real <= c.pokemonId <= hi as real
    ensures lo > hi ==> r == []
    ensures forall c :: multiset(r)[c] == if lo as real <= c.pokemonId <= hi as real then multiset(cards)[c] else 0
  {
    SelectRange(cards, (c: Card) => c.pokemonId, lo, hi)
  }

  // ----- the bounds of the number inputs -----

  /** The limits and default values of a pair of number inputs. */
  datatype Bounds = Bounds(lo: int, hi: int)

  /** Python's `int(x)` on a float: truncation toward zero. */
  function Trunc(x: real): (t: int)
    ensures 0.0 <= x ==> t as real <= x < t as real + 1.0
    ensures x < 0.0 ==> t as real - 1.0 < x <= t as real
  {
    if x >= 0.0 then x.Floor else -((-x).Floor)
  }

  function Floor(x: real): (t: int)
    ensures t as real <= x < t as real + 1.0
  {
    x.Floor
  }

  function Ceil(x: real): (t: int)
    ensures t as real - 1.0 < x <= t as real
  {
    -((-x).Floor)
  }

  /** The bounds as app.py:122-123 and app.py:138-139 compute them:
      `int(min)` and `int(max)` of the column, or 0 and `emptyHi` when no row
      is left. The lower bound never exceeds the upper one, so both inputs
      can take their defaults. */
  function TruncBounds(xs: seq<real>, emptyHi: int): (b: Bounds)
    requires emptyHi >= 0
    ensures xs == [] ==> b == Bounds(0, emptyHi)
    ensures b.lo <= b.hi
    ensures forall i :: 0 <= i < |xs| ==> b.lo as real - 1.0 < xs[i] < b.hi as real + 1.0
    ensures xs != [] ==> exists i :: 0 <= i < |xs| && b.lo == Trunc(xs[i]) && forall j :: 0 <= j < |xs| ==> xs[i] <= xs[j]
    ensures xs != [] ==> exists i :: 0 <= i < |xs| && b.hi == Trunc(xs[i]) && forall j :: 0 <= j < |xs| ==> xs[j] <= xs[i]
  {
    if xs == [] then Bounds(0, emptyHi) else Bounds(Trunc(Min(xs)), Trunc(Max(xs)))
  }

  /** The bounds with the minimum rounded down and the maximum rounded up, so
      that every value of the column lies within them. */
  function CoverBounds(xs: seq<real>, emptyHi: int): (b: Bounds)
    requires emptyHi >= 0
    ensures xs == [] ==> b == Bounds(0, emptyHi)
    ensures b.lo <= b.hi
    ensures forall i :: 0 <= i < |xs| ==> b.lo as real <= xs[i] <= b.hi as real
    ensures xs != [] ==> exists i :: 0 <= i < |xs| && b.lo == Floor(xs[i]) && forall j :: 0 <= j < |xs| ==> xs[i] <= xs[j]
    ensures xs != [] ==> exists i :: 0 <= i < |xs| && b.hi == Ceil(xs[i]) && forall j :: 0 <= j < |xs| ==> xs[j] <= xs[i]
  {
    if xs == [] then Bounds(0, emptyHi) else Bounds(Floor(Min(xs)), Ceil(Max(xs)))
  }

  /** Every widget setting the truncated bounds admit is admitted by the
      covering bounds too. */
  lemma TruncWithinCover(xs: seq<real>, emptyHi: int)
    requires emptyHi >= 0
    ensures CoverBounds(xs, emptyHi).lo <= TruncBounds(xs, emptyHi).lo
    ensures TruncBounds(xs, emptyHi).hi <= CoverBounds(xs, emptyHi).hi
  {
  }

  /** As written, a card whose price is the largest and has a positive
      fractional part is dropped by the price filter under every setting the
      two inputs allow: the upper input cannot go past `int(max)`. */
  lemma TruncHidesFractionalMax(cards: seq<Card>, lo: int, hi: int)
    requires cards != []
    requires Max(Prices(cards)) > 0.0
    requires Max(Prices(cards)).Floor as real < Max(Prices(cards))
    requires TruncBounds(Prices(cards), PRICE_EMPTY_HI).lo <= lo <= TruncBounds(Prices(cards), PRICE_EMPTY_HI).hi
    requires TruncBounds(Prices(cards), PRICE_EMPTY_HI).lo <= hi <= TruncBounds(Prices(cards), PRICE_EMPTY_HI).hi
    ensures forall c :: c in cards && c.price == Max(Prices(cards)) ==> c !in FilterPrice(cards, lo, hi)
    ensures |FilterPrice(cards, lo, hi)| < |cards|
  {
    var xs := Prices(cards);
    var m := Max(xs);
    var b := TruncBounds(xs, PRICE_EMPTY_HI);
    assert b.hi == Trunc(m) == m.Floor;
    assert hi as real < m;
    var i :| 0 <= i < |cards| && xs[i] == m;
    SubseqMissing(FilterPrice(cards, lo, hi), cards, cards[i]);
  }

  /** A range that holds every value of its column keeps every card. */
  lemma RangeKeepsAll(cards: seq<Card>, field: Card -> real, lo: int, hi: int)
    requires forall i :: 0 <= i < |cards| ==> lo as real <= field(cards[i]) <= hi as real
    ensures SelectRange(cards, field, lo, hi) == cards
  {
    var keep := (c: Card) => lo as real <= field(c) <= hi as real;
    forall c | c in cards ensures keep(c) {
      var i :| 0 <= i < |cards| && cards[i] == c;
    }
    assert Filter(cards, keep) == cards;
  }

  /** With the covering bounds, the inputs' defaults keep every card. */
  lemma CoverDefaultsKeepAll(cards: seq<Card>, emptyHi: int)
    requires emptyHi >= 0
    ensures FilterPrice(cards, CoverBounds(Prices(cards), emptyHi).lo, CoverBounds(Prices(cards), emptyHi).hi) == cards
    ensures FilterId(cards, CoverBounds(Ids(cards), emptyHi).lo, CoverBounds(Ids(cards), emptyHi).hi) == cards
  {
    var bp := CoverBounds(Prices(cards), emptyHi);
    var bi := CoverBounds(Ids(cards), emptyHi);
    RangeKeepsAll(cards, (c: Card) => c.price, bp.lo, bp.hi);
    RangeKeepsAll(cards, (c: Card) => c.pokemonId, bi.lo, bi.hi);
  }
}
