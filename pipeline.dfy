/** One render of the card page (app.py:99-195): the table is narrowed by
    the sidebar widgets in order, summarised, grouped and drawn. */
module Pipeline {
  import opened Seqs
  import opened Cards
  import opened Filters
  import opened Summary
  import opened Display

  /** What the sidebar widgets hold during one render. */
  datatype Selection = Selection(
    generation: Option<string>,  // the generation box; Some("Alle") for no filter
    setName: Option<string>,     // the set box; Some("Alle") for no filter
    rarities: seq<string>,       // the rarity multi-select; [] for no filter
    priceLo: int,
    priceHi: int,
    idLo: int,
    idHi: int)

  /** Whether a row passes the generation, set and rarity boxes. */
  predicate RowInCategories(sel: Selection, row: Row)
  {
    && (sel.generation == Some(ALL_LABEL) || Matches(row.generation, sel.generation))
    && (sel.setName == Some(ALL_LABEL) || Matches(row.setName, sel.setName))
    && (sel.rarities == [] || (row.rarity.Some? && row.rarity.value in sel.rarities))
  }

  /** The same test on a card, which keeps its row's text columns. */
  predicate CardInCategories(sel: Selection, c: Card)
  {
    && (sel.generation == Some(ALL_LABEL) || Matches(c.generation, sel.generation))
    && (sel.setName == Some(ALL_LABEL) || Matches(c.setName, sel.setName))
    && (sel.rarities == [] || (c.rarity.Some? && c.rarity.value in sel.rarities))
  }

  function RowKeep(sel: Selection): Row -> bool
  {
    (row: Row) => RowInCategories(sel, row)
  }

  function CardKeep(sel: Selection): Card -> bool
  {
    (c: Card) => CardInCategories(sel, c)
  }

  /** Whether a card passes every widget of `sel`, judged on the card alone. */
  predicate Admits(sel: Selection, c: Card)
  {
    && CardInCategories(sel, c)
    && sel.priceLo as real <= c.price <= sel.priceHi as real
    && sel.idLo as real <= c.pokemonId <= sel.idHi as real
  }

  /** The rows left after the generation, set and rarity boxes (app.py:99-112):
      every row that passes all three, as often as the catalogue holds it. */
  function Categorized(catalogue: seq<Row>, sel: Selection): (r: seq<Row>)
    ensures forall row :: multiset(r)[row] == if RowInCategories(sel, row) then multiset(catalogue)[row] else 0
  {
    FilterRarity(FilterSet(FilterGeneration(catalogue, sel.generation), sel.setName), sel.rarities)
  }

  /** The three boxes in a row select with their combined mask. */
  lemma CategorizedIsSelection(catalogue: seq<Row>, sel: Selection)
    ensures Categorized(catalogue, sel) == Filter(catalogue, RowKeep(sel))
  {
    var g := ChoiceKeep(Generation, sel.generation);
    var s := ChoiceKeep(SetName, sel.setName);
    var r := RarityKeep(sel.rarities);
    var gs := (row: Row) => g(row) && s(row);
    var a := FilterGeneration(catalogue, sel.generation);
    var b := FilterSet(a, sel.setName);
    CategoriesAreSelections(catalogue, sel.generation, sel.setName, sel.rarities);
    CategoriesAreSelections(a, sel.generation, sel.setName, sel.rarities);
    CategoriesAreSelections(b, sel.generation, sel.setName, sel.rarities);
    FilterFilter(catalogue, g, s, gs);
    FilterFilter(catalogue, gs, r, RowKeep(sel));
  }

  /** Coercing after the category boxes is the same as applying the boxes to
      the coerced catalogue. */
  lemma CoercedCategories(catalogue: seq<Row>, sel: Selection)
    ensures Coerce(Categorized(catalogue, sel)) == Filter(Coerce(catalogue), CardKeep(sel))
  {
    CategorizedIsSelection(catalogue, sel);
    CoerceFilter(catalogue, RowKeep(sel), CardKeep(sel));
  }

  /** The cards left after coercion and the price range (app.py:115-133):
      each card of the coerced catalogue that passes the boxes and the price
      range, as often as the catalogue yields it. */
  function Priced(catalogue: seq<Row>, sel: Selection): (r: seq<Card>)
    ensures forall c :: multiset(r)[c] ==
              if CardInCategories(sel, c) && sel.priceLo as real <= c.price <= sel.priceHi as real
              then multiset(Coerce(catalogue))[c] else 0
  {
    CoercedCategories(catalogue, sel);
    forall c ensures multiset(Filter(Coerce(catalogue), CardKeep(sel)))[c] ==
                     if CardInCategories(sel, c) then multiset(Coerce(catalogue))[c] else 0 {
      FilterCount(Coerce(catalogue), CardKeep(sel), c);
    }
    FilterPrice(Coerce(Categorized(catalogue, sel)), sel.priceLo, sel.priceHi)
  }

  /** The filtered view the summary and the gallery are computed from
      (app.py:99-149): each card of the coerced catalogue that every widget
      admits, as often as the catalogue yields it. */
  function View(catalogue: seq<Row>, sel: Selection): (r: seq<Card>)
    ensures forall c :: multiset(r)[c] == if Admits(sel, c) then multiset(Coerce(catalogue))[c] else 0
  {
    FilterId(Priced(catalogue, sel), sel.idLo, sel.idHi)
  }

  /** The choices the three boxes can hold: each is among the options its
      box offers at that point of the chain (app.py:100, 105, 110). A choice
      other than "Alle" is therefore a value some row still in view holds. */
  predicate ChoicesOffered(catalogue: seq<Row>, sel: Selection)
    ensures ChoicesOffered(catalogue, sel) ==>
              sel.generation == Some(ALL_LABEL) ||
              exists row :: row in catalogue && row.generation == sel.generation
    ensures ChoicesOffered(catalogue, sel) ==>
              sel.setName == Some(ALL_LABEL) ||
              exists row :: row in FilterGeneration(catalogue, sel.generation) && row.setName == sel.setName
    ensures ChoicesOffered(catalogue, sel) ==>
              forall r :: r in sel.rarities ==>
                exists row :: row in FilterSet(FilterGeneration(catalogue, sel.generation), sel.setName) && row.rarity == Some(r)
  {
    var afterGeneration := FilterGeneration(catalogue, sel.generation);
    var gs := GenerationOptions(catalogue);
    var ss := SetOptions(afterGeneration);
    OtherThanFirst(gs, sel.generation);
    OtherThanFirst(ss, sel.setName);
    && sel.generation in gs
    && sel.setName in ss
    && (forall r :: r in sel.rarities ==> r in RarityOptions(FilterSet(afterGeneration, sel.setName)))
  }

  /** An element of a sequence is its head or lies in its tail. */
  lemma OtherThanFirst<T>(xs: seq<T>, x: T)
    requires |xs| >= 1
    ensures x in xs <==> x == xs[0] || x in xs[1..]
  {
    assert xs == [xs[0]] + xs[1..];
  }

  /** The settings the widgets can hold: the choices the boxes offer, and
      each number within its input's limits, which are the truncated ones
      of the page as written or, with `truncated` false, the covering ones. */
  predicate AdmissibleWith(catalogue: seq<Row>, sel: Selection, truncated: bool)
    ensures AdmissibleWith(catalogue, sel, truncated) ==> ChoicesOffered(catalogue, sel)
    ensures AdmissibleWith(catalogue, sel, truncated) && Coerce(Categorized(catalogue, sel)) == [] ==>
              0 <= sel.priceLo <= PRICE_EMPTY_HI && 0 <= sel.priceHi <= PRICE_EMPTY_HI &&
              0 <= sel.idLo <= ID_EMPTY_HI && 0 <= sel.idHi <= ID_EMPTY_HI
  {
    var cards := Coerce(Categorized(catalogue, sel));
    var pb := if truncated then TruncBounds(Prices(cards), PRICE_EMPTY_HI)
              else CoverBounds(Prices(cards), PRICE_EMPTY_HI);
    var priced := FilterPrice(cards, sel.priceLo, sel.priceHi);
    var ib := if truncated then TruncBounds(Ids(priced), ID_EMPTY_HI)
              else CoverBounds(Ids(priced), ID_EMPTY_HI);
    && ChoicesOffered(catalogue, sel)
    && pb.lo <= sel.priceLo <= pb.hi && pb.lo <= sel.priceHi <= pb.hi
    && ib.lo <= sel.idLo <= ib.hi && ib.lo <= sel.idHi <= ib.hi
  }

  /** Settings the page as written allows: number inputs limited to
      `int(min)`..`int(max)` (app.py:122-131, 138-147). */
  predicate AdmissibleAsWritten(catalogue: seq<Row>, sel: Selection)
  {
    AdmissibleWith(catalogue, sel, true)
  }

  /** Settings allowed once the limits round outward, so that they cover
      every value of their column. */
  predicate Admissible(catalogue: seq<Row>, sel: Selection)
  {
    AdmissibleWith(catalogue, sel, false)
  }

  /** Every setting the page as written allows is allowed with the covering
      limits, so the runs below include every run of the page as written. */
  lemma AsWrittenIsAdmissible(catalogue: seq<Row>, sel: Selection)
    requires AdmissibleAsWritten(catalogue, sel)
    ensures Admissible(catalogue, sel)
  {
    var cards := Coerce(Categorized(catalogue, sel));
    TruncWithinCover(Prices(cards), PRICE_EMPTY_HI);
    TruncWithinCover(Ids(FilterPrice(cards, sel.priceLo, sel.priceHi)), ID_EMPTY_HI);
  }

  /** The view holds exactly the cards that come from a catalogue row whose
      price and id read as numbers and that every widget admits. */
  lemma ViewMembership(catalogue: seq<Row>, sel: Selection, c: Card)
    ensures c in View(catalogue, sel) <==>
            Admits(sel, c) && exists row :: row in catalogue && CoerceRow(row) == Some(c)
    ensures multiset(View(catalogue, sel))[c] == if Admits(sel, c) then multiset(Coerce(catalogue))[c] else 0
  {
    if c in View(catalogue, sel) {
      ViewSound(catalogue, sel, c);
    }
    if Admits(sel, c) && exists row :: row in catalogue && CoerceRow(row) == Some(c) {
      var row :| row in catalogue && CoerceRow(row) == Some(c);
      ViewComplete(catalogue, sel, row, c);
    }
  }

  lemma ViewSound(catalogue: seq<Row>, sel: Selection, c: Card)
    requires c in View(catalogue, sel)
    ensures Admits(sel, c) && exists row :: row in catalogue && CoerceRow(row) == Some(c)
  {
    var rows := Categorized(catalogue, sel);
    var row :| row in rows && CoerceRow(row) == Some(c);
    assert Carries(row, c);
    var g := FilterGeneration(catalogue, sel.generation);
    var s := FilterSet(g, sel.setName);
    assert row in s && row in g && row in catalogue;
  }

  lemma ViewComplete(catalogue: seq<Row>, sel: Selection, row: Row, c: Card)
    requires Admits(sel, c) && row in catalogue && CoerceRow(row) == Some(c)
    ensures c in View(catalogue, sel)
  {
    assert Carries(row, c);
    var g := FilterGeneration(catalogue, sel.generation);
    var s := FilterSet(g, sel.setName);
    assert row in g;
    assert row in s;
    assert row in Categorized(catalogue, sel);
  }

  /** The filter chain never adds a card: the view is no longer than the
      catalogue, and each step keeps its input's order. */
  lemma ViewNoLonger(catalogue: seq<Row>, sel: Selection)
    ensures |View(catalogue, sel)| <= |Coerce(catalogue)|
    ensures |View(catalogue, sel)| <= |catalogue|
  {
    var g := FilterGeneration(catalogue, sel.generation);
    var s := FilterSet(g, sel.setName);
    var r := FilterRarity(s, sel.rarities);
    SubseqMultiset(g, catalogue);
    SubseqMultiset(s, g);
    SubseqMultiset(r, s);
    var p := FilterPrice(Coerce(r), sel.priceLo, sel.priceHi);
    SubseqMultiset(p, Coerce(r));
    SubseqMultiset(FilterId(p, sel.idLo, sel.idHi), p);
    CoerceMonotone(catalogue, r);
  }

  /** Coercing a subsequence gives no more cards than coercing the whole. */
  lemma {:induction false} CoerceMonotone(rows: seq<Row>, sub: seq<Row>)
    requires multiset(sub) <= multiset(rows)
    ensures |Coerce(sub)| <= |Coerce(rows)|
  {
    CoerceIsSelection(rows);
    CoerceIsSelection(sub);
    FilterMonotone(sub, rows, Numeric);
  }

  /** With "Alle" in both boxes, no rarity chosen and the number inputs at
      their covering defaults, the view is every card of the catalogue. */
  lemma DefaultsShowEveryCard(catalogue: seq<Row>)
    ensures
      var cards := Coerce(catalogue);
      var pb := CoverBounds(Prices(cards), PRICE_EMPTY_HI);
      var ib := CoverBounds(Ids(cards), ID_EMPTY_HI);
      var sel := Selection(Some(ALL_LABEL), Some(ALL_LABEL), [], pb.lo, pb.hi, ib.lo, ib.hi);
      Admissible(catalogue, sel) && View(catalogue, sel) == cards
  {
    var cards := Coerce(catalogue);
    CoverDefaultsKeepAll(cards, PRICE_EMPTY_HI);
    CoverDefaultsKeepAll(cards, ID_EMPTY_HI);
  }

  /** As written, a catalogue of one row whose price reads 150.5 shows
      nothing, whatever the widgets hold: the upper price input stops at 150. */
  lemma FractionalPriceNeverShown(row: Row, sel: Selection)
    requires row.price == Num(150.5)
    requires AdmissibleAsWritten([row], sel)
    ensures View([row], sel) == []
  {
    var cards := Coerce(Categorized([row], sel));
    AsWrittenPriceBounds([row], sel);
    CardsOfOneRow(row, sel);
    OnlyFractionalHidden(cards, sel.priceLo, sel.priceHi);
    assert View([row], sel) == FilterId(FilterPrice(cards, sel.priceLo, sel.priceHi), sel.idLo, sel.idHi);
  }

  /** A one-row catalogue priced 150.5 yields at most one card, priced 150.5. */
  lemma CardsOfOneRow(row: Row, sel: Selection)
    requires row.price == Num(150.5)
    ensures |Coerce(Categorized([row], sel))| <= 1
    ensures forall c :: c in Coerce(Categorized([row], sel)) ==> c.price == 150.5
  {
    CategorizedWithin([row], sel);
  }

  /** The price inputs as written stay within `int(min)`..`int(max)` of the
      prices left by the category boxes. */
  lemma AsWrittenPriceBounds(catalogue: seq<Row>, sel: Selection)
    requires AdmissibleAsWritten(catalogue, sel)
    ensures var b := TruncBounds(Prices(Coerce(Categorized(catalogue, sel))), PRICE_EMPTY_HI);
            b.lo <= sel.priceLo <= b.hi && b.lo <= sel.priceHi <= b.hi
  {
  }

  /** The category boxes only ever drop rows. */
  lemma CategorizedWithin(catalogue: seq<Row>, sel: Selection)
    ensures |Categorized(catalogue, sel)| <= |catalogue|
    ensures forall row :: row in Categorized(catalogue, sel) ==> row in catalogue
  {
    var g := FilterGeneration(catalogue, sel.generation);
    var s := FilterSet(g, sel.setName);
    var r := FilterRarity(s, sel.rarities);
    SubseqMultiset(g, catalogue);
    SubseqMultiset(s, g);
    SubseqMultiset(r, s);
    assert forall row :: row in r ==> row in s;
    assert forall row :: row in s ==> row in g;
  }

  /** A table of at most one card, costing 150.5, is emptied by the price
      filter under every setting the as-written inputs allow. */
  lemma OnlyFractionalHidden(cards: seq<Card>, lo: int, hi: int)
    requires |cards| <= 1
    requires forall c :: c in cards ==> c.price == 150.5
    requires TruncBounds(Prices(cards), PRICE_EMPTY_HI).lo <= lo <= TruncBounds(Prices(cards), PRICE_EMPTY_HI).hi
    requires TruncBounds(Prices(cards), PRICE_EMPTY_HI).lo <= hi <= TruncBounds(Prices(cards), PRICE_EMPTY_HI).hi
    ensures FilterPrice(cards, lo, hi) == []
  {
    if cards != [] {
      assert cards[0] in cards;
      assert Prices(cards) == [150.5];
      assert Max([150.5]) == 150.5;
      assert (150.5).Floor == 150;
      TruncHidesFractionalMax(cards, lo, hi);
    }
  }

  /** One render: the filter chain (app.py:99-149), the summary
      (app.py:155-159) and the gallery (app.py:166-195). */
  method Run(catalogue: seq<Row>, sel: Selection) returns (view: seq<Card>, summary: Summary, page: seq<Block>)
    requires Admissible(catalogue, sel)
    ensures view == View(catalogue, sel)
    ensures forall c :: c in view ==> Admits(sel, c)
    ensures |view| <= |catalogue|
    ensures summary == Summarize(view)
    ensures page == PageOf(Groups(view))
  {
    var df := FilterGeneration(catalogue, sel.generation);
    df := FilterSet(df, sel.setName);
    df := FilterRarity(df, sel.rarities);
    var cards := Coerce(df);
    cards := FilterPrice(cards, sel.priceLo, sel.priceHi);
    cards := FilterId(cards, sel.idLo, sel.idHi);
    view := cards;
    forall c | c in view ensures Admits(sel, c) {
      ViewMembership(catalogue, sel, c);
    }
    ViewNoLonger(catalogue, sel);
    summary := Summarize(view);
    page := Render(Groups(view));
  }
}
