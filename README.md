# Pokémon card page: filter chain, summary and gallery

This project models one render of the card page in `app.py`, a Streamlit
script over a catalogue of Pokémon trading cards. In a render:

- the card table goes through the sidebar filters in order: a single-choice
  generation box, a single-choice set box whose options come from the rows
  left by the generation box, and a rarity multi-select whose options are
  the sorted, distinct, non-missing rarities left by the set box;
- `price` and `pokemon_id` are coerced to numbers, and the rows where
  either fails are dropped;
- two inclusive number ranges, price and Pokémon id, are applied; the limits
  and defaults of their inputs come from the `int()` of the minimum and
  maximum of the rows still in view, or 0..1000 and 0..999 when none is left;
- the sidebar summary is computed;
- the gallery is drawn: one heading per Pokémon name in ascending order, and
  one box per card in card-number order, with fixed texts for missing
  values.

Modules, one per file:

- `Seqs` (`seqs.dfy`): mask selection, `unique()`, sums, minima and maxima,
  and subsequences.
- `Text` (`text.dfy`): Python's string order, `sorted()` of strings,
  `str(int)`, and the number syntax `to_numeric` accepts.
- `Cards` (`cards.dfy`): rows, cards and coercion.
- `Filters` (`filters.dfy`): the five filters and the bounds of the number
  inputs.
- `Summary` (`summary.dfy`): grouping, the card-number sort and the
  statistics.
- `Display` (`display.dfy`): the per-card texts and the two nested loops
  that draw the gallery.
- `Pipeline` (`pipeline.dfy`): the chain as one method, `Run`.

The table operations are pure functions on sequences, and properties are
proved about them. The drawing loops are a method proved against a function
that describes the page.

Modelling choices:

- A missing (NaN) cell is `None`, or `Blank` in a column that may hold
  numbers or text.
- The "Alle" entry of a single-choice box is the literal string, because
  lines 101 and 106 compare the selection with that string.
- Choosing the NaN option of a box keeps no row, because NaN equals nothing.
- `groupby` and `nunique` skip missing names. A card without a name still
  counts in the card count and in the total value, but it is in no group and
  gets no box.
- A missing card number sorts after all present ones.
- Prices are exact reals.
- `int()` is truncation toward zero (`Filters.Trunc`).

Facts of `app.py` the model keeps:

- Generation and set are single-choice boxes (app.py:100, 105); only rarity
  is a multi-select (app.py:110).
- Card numbers are integers, because line 179 applies `int()` to them.
- The sort at line 172 is pandas' default, which is not stable. The model
  promises only sorted order and a permutation.
- With no rows left, the number inputs default to 0..1000 and 0..999
  (app.py:122-123, 138-139).

## Model

| member | source | states |
|---|---|---|
| Cards.ToNumeric | app.py:115-116 | a number cell reads as itself, a missing cell as NaN, a text cell as its parsed number |
| Cards.CoerceRow | app.py:115-117 | a row survives coercion iff both its price and its id read as numbers, and the card it becomes agrees with the row on every column |
| Cards.Coerce | app.py:115-117 | a card is in the result iff some row of the input coerces to it; the result is no longer than the input |
| Cards.CoerceIsSelection | app.py:117 | coercion is a mask selection of the numeric rows in their original order, each converted |
| Cards.CoerceFilter | app.py:99-117 | coercion commutes with any selection that looks only at columns coercion leaves alone |
| Seqs.Distinct | app.py:99 | `unique()` holds each element of the column exactly once and nothing else |
| Seqs.FilterFilter | app.py:99-112 | two masks applied in turn select the same rows as their conjunction |
| Filters.GenerationOptions | app.py:99-100 | the generation box offers "Alle" first, then each generation of the rows exactly once and nothing else |
| Filters.FilterGeneration | app.py:99-102 | the result is a subsequence of the input; "Alle" keeps the table unchanged; otherwise a row is kept iff its generation equals the choice; each kept row occurs as often as in the input, each other row not at all |
| Filters.SetOptions | app.py:104-105 | the set box offers "Alle" first, then each set name of the rows left by the generation box exactly once and nothing else |
| Filters.FilterSet | app.py:104-107 | the result is a subsequence of the input; "Alle" keeps the table unchanged; otherwise a row is kept iff its set name equals the choice; each kept row occurs as often as in the input, each other row not at all |
| Filters.RarityOptions | app.py:109-110 | the rarity options are strictly ascending and are exactly the non-missing rarities of the rows left by the set box |
| Filters.FilterRarity | app.py:109-112 | the result is a subsequence of the input; an empty selection keeps the table unchanged; otherwise a row is kept iff its rarity is present and selected; each kept row occurs as often as in the input, each other row not at all |
| Filters.CategoriesAreSelections | app.py:99-112 | each category box is a mask selection by its own test on a row |
| Filters.FilterPrice | app.py:133 | the result is a subsequence of the input; a card is kept iff lo ≤ price ≤ hi, as often as the input holds it; lo > hi keeps nothing |
| Filters.FilterId | app.py:149 | the result is a subsequence of the input; a card is kept iff lo ≤ id ≤ hi, as often as the input holds it; lo > hi keeps nothing |
| Filters.Trunc | app.py:122-123 | `int()` of a real lies within one unit of it, toward zero |
| Filters.TruncBounds | app.py:122-123 | the input bounds as written are 0..emptyHi for an empty column, and otherwise `int()` of the column's minimum and `int()` of its maximum; lower never above upper; every value lies strictly within one unit outside them |
| Filters.CoverBounds | app.py:122-123 | the corrected bounds are 0..emptyHi for an empty column, and otherwise the floor of the column's minimum and the ceiling of its maximum; lower never above upper; every value of the column lies within them |
| Filters.TruncHidesFractionalMax | app.py:122-133 | as written, the card with the largest price, when that price has a fractional part, is dropped under every setting the inputs allow |
| Filters.RangeKeepsAll | app.py:133 | a range holding every value of its column keeps the table unchanged |
| Filters.CoverDefaultsKeepAll | app.py:122-149 | with the corrected bounds, the default settings of both ranges keep every card |
| Text.SortStrings | app.py:110 | `sorted()` returns a permutation of its input in non-decreasing string order |
| Text.SortDistinctAscending | app.py:110 | sorting distinct strings gives each exactly once, in strictly ascending order |
| Text.ParseIntToString | app.py:179 | the text `str(int(n))` reads back as the number n |
| Text.ParseWhole | app.py:115-116 | `to_numeric` reads an optional sign and digits as the signed value of the digits |
| Text.ParseDecimal | app.py:115-116 | `to_numeric` reads an optional sign, digits a, a point and digits b as ±(value(a) + value(b)/10^\|b\|) |
| Text.ReadsCataloguePrice | app.py:115-116 | the text "40.9" reads as the number 40.9 |
| Summary.SortByNumber | app.py:172 | the cards of a group come out as a permutation in non-decreasing card-number order, with missing numbers last |
| Summary.GroupKeys | app.py:157 | the group keys are strictly ascending, each present name exactly once, and as many as the distinct names |
| Summary.Groups | app.py:166-172 | one group per present name in ascending order; each group is non-empty, sorted by card number, and a permutation of the cards of that name |
| Summary.GroupsPartition | app.py:166-175 | the groups together hold each named card of the view exactly as often as the view does, and no nameless card |
| Summary.AllNamedAllShown | app.py:166-175 | when every card has a name, the groups hold exactly the cards of the view |
| Summary.MinsBelowMaxs | app.py:158-159 | the sum of the per-group minimum prices is at most the sum of the per-group maxima |
| Summary.Summarize | app.py:155-159 | the card count is the number of rows; the number of Pokémon equals the number of groups and is at most the card count; the total value is the sum of the view's prices; the min-sum and max-sum add one cheapest and one dearest price per group; min-sum ≤ max-sum; an empty view gives zeros throughout |
| Summary.GroupMinIsCheapest | app.py:158 | the term a group adds to the min-sum is the price of a card of that name in the view, and no card of that name is cheaper |
| Summary.GroupMaxIsDearest | app.py:159 | the term a group adds to the max-sum is the price of a card of that name in the view, and no card of that name is dearer |
| Display.CellText | app.py:188-189 | a text cell shows its text, a missing one "nan" |
| Display.NumberText | app.py:179 | a missing card number shows as ''; a present one as `str()` of an integer: digits without a leading zero or a point, after a '-' when negative, reading back as the number |
| Display.SetSizeText | app.py:180 | a missing set size shows as '', a present one as its text |
| Display.PriceTextOf | app.py:181 | a missing price shows as 'N/A', a present one as the amount |
| Display.RarityText | app.py:182 | a missing rarity shows as 'Unknown', a present one as itself |
| Display.EntryOf | app.py:176-193 | the box of a coerced card shows its name and set name as cell texts, its card number and set size as their texts, the amount of its price (never 'N/A'), its rarity text and its image |
| Display.RenderGroup | app.py:168-195 | the inner loop produces the group's heading, then one box per card in order |
| Display.Render | app.py:166-195 | the outer loop produces the page the groups describe |
| Display.PageContents | app.py:166-195 | the page shows one heading per group in order, and the boxes of all grouped cards in group order and card order |
| Display.GalleryOfView | app.py:166-195 | for a view, the headings are its distinct names ascending, there is one box per named card, and no box shows 'N/A' |
| Pipeline.AsWrittenIsAdmissible | app.py:122-147 | every widget setting the page as written allows is allowed with the corrected bounds |
| Pipeline.ChoicesOffered | app.py:100-112 | a generation other than "Alle" is that of a catalogue row; a set other than "Alle" is that of a row left by the generation box; every selected rarity is that of a row left by the set box |
| Pipeline.AdmissibleWith | app.py:100-147 | an admissible setting has choices the boxes offer, and with no card left every number input lies in 0..1000 for prices and 0..999 for ids |
| Pipeline.Categorized | app.py:99-112 | each row passing the three category boxes occurs as often as in the catalogue, every other row not at all |
| Pipeline.CategorizedIsSelection | app.py:99-112 | the three boxes in turn select by the conjunction of their tests |
| Pipeline.CoercedCategories | app.py:99-117 | coercing after the category boxes equals applying the boxes to the coerced catalogue |
| Pipeline.Priced | app.py:99-133 | each coerced card passing the boxes and the price range occurs as often as the catalogue yields it, every other card not at all |
| Pipeline.View | app.py:99-149 | each coerced card every widget admits occurs as often as the catalogue yields it, every other card not at all |
| Pipeline.ViewMembership | app.py:99-149 | a card is in the view iff it comes from a catalogue row that reads as numbers and every widget admits it; it occurs as often as admitted catalogue rows coerce to it |
| Pipeline.ViewSound | app.py:99-149 | every card of the view comes from a catalogue row and is admitted by every widget |
| Pipeline.ViewComplete | app.py:99-149 | every card coerced from a catalogue row and admitted by every widget is in the view |
| Pipeline.ViewNoLonger | app.py:99-149 | the view has no more cards than the coerced catalogue, nor than the catalogue |
| Pipeline.CategorizedWithin | app.py:99-112 | the category boxes only drop rows |
| Pipeline.OnlyFractionalHidden | app.py:122-133 | as written, the price filter empties a table of at most one card priced 150.5, whatever the inputs hold |
| Pipeline.FractionalPriceNeverShown | app.py:122-149 | as written, a one-row catalogue priced 150.5 shows no card under any setting |
| Pipeline.DefaultsShowEveryCard | app.py:99-149 | with "Alle" in both boxes, no rarity and the corrected number defaults, the setting is admissible and the view is the whole coerced catalogue |
| Pipeline.Run | app.py:99-195 | one render: the view is the filter chain's result, every card in it is admitted by every widget, it is no longer than the catalogue, and the summary and page are those of the view |

## Left out

- `img_to_base64` (app.py:11-29) is not modelled, because it is file I/O, PIL decoding and base64 encoding. The image path is carried through to each box unchanged.
- The CSS, the HTML markup, and the `:.0f` and `:.1f` float formatting (app.py:32-64, 161-164, 184-195) are not modelled. A box holds its texts and its price as an amount.
- Reading the CSV file and creating the dummy files and images (app.py:68-93) are file I/O. The catalogue is an input sequence of rows.
- The dummy rows have no `generation` column, so line 99 would raise `KeyError` on them. The model gives every row an optional generation instead.
- Streamlit widget state is not modelled. The widget values are an input, `Selection`, limited by the `Admissible` precondition.
- IEEE floating point is not modelled. Prices, ids and sums are exact reals.
- Text.ParseNumber: accepts only an optional sign, digits and an optional fraction. It does not model the exponents, surrounding whitespace, `inf` or `nan` spellings that `to_numeric` also reads.
- Cards.Row: the set size is held as its display text; the float text ("102.0") that `str()` shows when the column holds a NaN is not modelled.
- Cards.Row: card numbers are whole integers. A fractional card number, which `int()` at line 179 would truncate, is not modelled.
- Summary.SortByNumber: the contract does not fix the order of cards with equal card numbers, because pandas' default sort is not stable.
- Seqs.Distinct: the contract does not state the order of the box options, which `unique()` gives by first appearance; the boxes' behaviour does not depend on it.
- Pipeline.Run: requires settings admissible under the corrected bounds (`Filters.CoverBounds`). `Pipeline.AsWrittenIsAdmissible` shows that this includes every setting the page as written allows.

## Findings

| source | as written | input that shows it | evidently intended | confidence | as-written member | corrected member |
|---|---|---|---|---|---|---|
| app.py:123 | the upper limit of the price inputs is `int(max)`, which truncates; the same happens at line 139 for ids | one row priced 150.5: both inputs stop at 150, so the range filter at line 133 drops the card under every setting | the limits cover every price, with the minimum rounded down and the maximum rounded up | not executed | Pipeline.FractionalPriceNeverShown | Pipeline.DefaultsShowEveryCard |
