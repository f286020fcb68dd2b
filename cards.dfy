/** The card table: one row per catalogue line as read from the CSV file,
    and one card per row once `price` and `pokemon_id` have been coerced
    to numbers (app.py:115-117). */
module Cards {
  import opened Seqs
  import opened Text

  /** A cell of a column that may hold numbers, text or nothing (NaN). */
  datatype Cell = Num(x: real) | Txt(s: string) | Blank

  /** A catalogue row before coercion. `None` is a missing (NaN) cell. */
  datatype Row = Row(
    pokemonId: Cell,
    pokemonName: Option<string>,
    setName: Option<string>,
    cardNumber: Option<int>,
    setSize: Option<string>,
    price: Cell,
    rarity: Option<string>,
    generation: Option<string>,
    img: string)

  /** A row whose `price` and `pokemon_id` are numbers. */
  datatype Card = Card(
    pokemonId: real,
    pokemonName: Option<string>,
    setName: Option<string>,
    cardNumber: Option<int>,
    setSize: Option<string>,
    price: real,
    rarity: Option<string>,
    generation: Option<string>,
    img: string)

  /** `pd.to_numeric(cell, errors='coerce')`, with `None` for NaN. */
  function ToNumeric(c: Cell): (r: Option<real>)
    ensures c.Num? ==> r == Some(c.x)
    ensures c.Blank? ==> r == None
    ensures c.Txt? ==> r == ParseNumber(c.s)
  {
    match c
    case Num(x) => Some(x)
    case Txt(s) => ParseNumber(s)
    case Blank => None
  }

  /** The card a row becomes when both of its numeric columns read as numbers. */
  predicate Carries(row: Row, c: Card)
  {
    && ToNumeric(row.price) == Some(c.price)
    && ToNumeric(row.pokemonId) == Some(c.pokemonId)
    && row.pokemonName == c.pokemonName
    && row.setName == c.setName
    && row.cardNumber == c.cardNumber
    && row.setSize == c.setSize
    && row.rarity == c.rarity
    && row.generation == c.generation
    && row.img == c.img
  }

  /** One row after lines 115-116: `None` when either column is NaN afterwards. */
  function CoerceRow(row: Row): (r: Option<Card>)
    ensures r.Some? <==> ToNumeric(row.price).Some? && ToNumeric(row.pokemonId).Some?
    ensures r.Some? ==> Carries(row, r.value)
  {
    match (ToNumeric(row.price), ToNumeric(row.pokemonId))
    case (Some(p), Some(id)) =>
      Some(Card(id, row.pokemonName, row.setName, row.cardNumber, row.setSize,
                p, row.rarity, row.generation, row.img))
    case _ => None
  }

  /** Lines 115-117: coerce both columns, then drop the rows where either
      became NaN, keeping the order of the rest. */
  function Coerce(rows: seq<Row>): (r: seq<Card>)
    ensures |r| <= |rows|
    ensures forall c :: c in r <==> exists row :: row in rows && CoerceRow(row) == Some(c)
  {
    if rows == [] then []
    else
      var rest := Coerce(rows[1..]);
      assert forall row :: row in rows <==> row == rows[0] || row in rows[1..];
      match CoerceRow(rows[0])
      case Some(c) => [c] + rest
      case None => rest
  }

  /** Coercion keeps order: it equals converting the rows a mask selects. */
  lemma {:induction false} CoerceIsSelection(rows: seq<Row>)
    ensures Coerce(rows) == ToCards(Filter(rows, Numeric))
  {
    if rows != [] {
      CoerceIsSelection(rows[1..]);
    }
  }

  predicate Numeric(row: Row)
  {
    CoerceRow(row).Some?
  }

  function ToCards(rows: seq<Row>): (r: seq<Card>)
    requires forall row :: row in rows ==> Numeric(row)
    ensures |r| == |rows|
    ensures forall i :: 0 <= i < |rows| ==> Some(r[i]) == CoerceRow(rows[i])
  {
    if rows == [] then []
    else
      assert rows[0] in rows && Numeric(rows[0]);
      [CoerceRow(rows[0]).value] + ToCards(rows[1..])
  }

  /** Coercion commutes with a selection that looks only at columns coercion
      leaves alone. */
  lemma {:induction false} CoerceFilter(rows: seq<Row>, p: Row -> bool, q: Card -> bool)
    requires forall row, c :: Carries(row, c) ==> (p(row) <==> q(c))
    ensures Coerce(Filter(rows, p)) == Filter(Coerce(rows), q)
  {
    if rows != [] {
      CoerceFilter(rows[1..], p, q);
    }
  }
}
