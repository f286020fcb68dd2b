/** The card gallery (app.py:166-195): a heading per Pokémon, then one box
    per card showing its set, number, set size, price and rarity, with
    fixed texts standing in for missing values. */
module Display {
  import opened Seqs
  import opened Text
  import opened Cards
  import opened Summary

  /** What an f-string shows for a NaN cell. */
  const NAN_TEXT: string := "nan"
  /** The rarity shown when a card has none (app.py:182). */
  const UNKNOWN_RARITY: string := "Unknown"

  /** The price line of a card box: an amount (shown with one decimal,
      app.py:181) or "N/A". */
  datatype PriceText = Amount(value: real) | NotAvailable

  /** The texts of one card box (app.py:184-193). */
  datatype Entry = Entry(
    name: string,
    setName: string,
    number: string,
    setSize: string,
    price: PriceText,
    rarity: string,
    img: string)

  /** One `st.markdown` call of the gallery. */
  datatype Block = Heading(name: string) | CardBox(entry: Entry)

  /** A text cell placed in an f-string: its text, or "nan". */
  function CellText(v: Option<string>): (s: string)
    ensures v.Some? ==> s == v.value
    ensures v.None? ==> s == NAN_TEXT
  {
    match v
    case Some(t) => t
    case None => NAN_TEXT
  }

  /** app.py:179: `str(int(card_number))`, or '' when it is missing. The
      text is plain digits without a leading zero or a point, after a '-'
      for a negative number, and reads back as the same number. */
  function NumberText(n: Option<int>): (s: string)
    ensures n.None? ==> s == ""
    ensures n.Some? ==> ParseNumber(s) == Some(n.value as real)
    ensures n.Some? && n.value >= 0 ==> AllDigits(s) && (|s| == 1 || s[0] != '0')
    ensures n.Some? && n.value < 0 ==> |s| >= 2 && s[0] == '-' && AllDigits(s[1..]) && s[1] != '0'
  {
    match n
    case Some(k) =>
      ParseIntToString(k);
      assert k < 0 ==> IntToString(k)[1..] == NatToString(-k);
      IntToString(k)
    case None => ""
  }

  /** app.py:180: the set size as text, or '' when it is missing. */
  function SetSizeText(s: Option<string>): (t: string)
    ensures s.Some? ==> t == s.value
    ensures s.None? ==> t == ""
  {
    match s
    case Some(v) => v
    case None => ""
  }

  /** app.py:181: the price, or 'N/A' when it is missing. */
  function PriceTextOf(p: Option<real>): (t: PriceText)
    ensures p.Some? ==> t == Amount(p.value)
    ensures p.None? ==> t == NotAvailable
  {
    match p
    case Some(x) => Amount(x)
    case None => NotAvailable
  }

  /** app.py:182: the rarity, or 'Unknown' when it is missing. */
  function RarityText(r: Option<string>): (t: string)
    ensures r.Some? ==> t == r.value
    ensures r.None? ==> t == UNKNOWN_RARITY
  {
    match r
    case Some(v) => v
    case None => UNKNOWN_RARITY
  }

  /** The box of one card. After coercion every card has a price, so the
      price line is never "N/A". */
  function EntryOf(c: Card): (e: Entry)
    ensures e.name == CellText(c.pokemonName) && e.setName == CellText(c.setName)
    ensures e.number == NumberText(c.cardNumber) && e.setSize == SetSizeText(c.setSize)
    ensures e.price == Amount(c.price)
    ensures e.rarity == RarityText(c.rarity)
    ensures e.img == c.img
  {
    Entry(CellText(c.pokemonName), CellText(c.setName), NumberText(c.cardNumber),
          SetSizeText(c.setSize), PriceTextOf(Some(c.price)), RarityText(c.rarity), c.img)
  }

  function Boxes(cards: seq<Card>): seq<Block>
  {
    if cards == [] then [] else [CardBox(EntryOf(cards[0]))] + Boxes(cards[1..])
  }

  /** The blocks of the whole gallery: per group its heading, then its boxes. */
  function PageOf(gs: seq<Group>): seq<Block>
  {
    if gs == [] then [] else [Heading(gs[0].name)] + Boxes(gs[0].cards) + PageOf(gs[1..])
  }

  /** app.py:166-195: the outer loop, one section per group. */
  method Render(gs: seq<Group>) returns (page: seq<Block>)
    ensures page == PageOf(gs)
  {
    page := [];
    var i := 0;
    while i < |gs|
      invariant 0 <= i <= |gs|
      invariant page + PageOf(gs[i..]) == PageOf(gs)
    {
      var section := RenderGroup(gs[i]);
      PageStep(gs, i);
      assert page + PageOf(gs[i..]) == (page + section) + PageOf(gs[i + 1..]);
      page := page + section;
      i := i + 1;
    }
  }

  /** app.py:168-195: the heading of one group, then the inner loop over its
      cards, one box each. */
  method RenderGroup(g: Group) returns (section: seq<Block>)
    ensures section == [Heading(g.name)] + Boxes(g.cards)
  {
    var cards := g.cards;
    section := [Heading(g.name)];
    var j := 0;
    while j < |cards|
      invariant 0 <= j <= |cards|
      invariant section + Boxes(cards[j..]) == [Heading(g.name)] + Boxes(cards)
    {
      var box := CardBox(EntryOf(cards[j]));
      BoxesStep(cards, j);
      section := section + [box];
      j := j + 1;
    }
  }

  lemma PageStep(gs: seq<Group>, i: nat)
    requires i < |gs|
    ensures PageOf(gs[i..]) == [Heading(gs[i].name)] + Boxes(gs[i].cards) + PageOf(gs[i + 1..])
    ensures PageOf(gs[|gs|..]) == []
  {
    assert gs[i..][1..] == gs[i + 1..];
  }

  lemma BoxesStep(cards: seq<Card>, j: nat)
    requires j < |cards|
    ensures Boxes(cards[j..]) == [CardBox(EntryOf(cards[j]))] + Boxes(cards[j + 1..])
    ensures Boxes(cards[|cards|..]) == [] && Boxes(cards[0..]) == Boxes(cards)
  {
    assert cards[j..][1..] == cards[j + 1..];
    assert cards[0..] == cards;
  }

  /** The entries of the card boxes of a page, in order. */
  function Shown(page: seq<Block>): seq<Entry>
  {
    if page == [] then []
    else if page[0].CardBox? then [page[0].entry] + Shown(page[1..])
    else Shown(page[1..])
  }

  /** The names of the headings of a page, in order. */
  function Headings(page: seq<Block>): seq<string>
  {
    if page == [] then []
    else if page[0].Heading? then [page[0].name] + Headings(page[1..])
    else Headings(page[1..])
  }

  function EntriesOf(cards: seq<Card>): (r: seq<Entry>)
    ensures |r| == |cards|
    ensures forall i :: 0 <= i < |cards| ==> r[i] == EntryOf(cards[i])
  {
    if cards == [] then [] else [EntryOf(cards[0])] + EntriesOf(cards[1..])
  }

  function GroupNames(gs: seq<Group>): (r: seq<string>)
    ensures |r| == |gs|
    ensures forall i :: 0 <= i < |gs| ==> r[i] == gs[i].name
  {
    if gs == [] then [] else [gs[0].name] + GroupNames(gs[1..])
  }

  lemma {:induction false} ShownAppend(a: seq<Block>, b: seq<Block>)
    ensures Shown(a + b) == Shown(a) + Shown(b)
    ensures Headings(a + b) == Headings(a) + Headings(b)
  {
    if a == [] {
      assert a + b == b;
    } else {
      assert (a + b)[0] == a[0];
      assert (a + b)[1..] == a[1..] + b;
      ShownAppend(a[1..], b);
    }
  }

  lemma {:induction false} BoxesShown(cards: seq<Card>)
    ensures Shown(Boxes(cards)) == EntriesOf(cards)
    ensures Headings(Boxes(cards)) == []
  {
    if cards != [] {
      BoxesShown(cards[1..]);
    }
  }

  /** The gallery shows one heading per group in group order, and the boxes
      of exactly the grouped cards, in group order and card order within. */
  lemma {:induction false} PageContents(gs: seq<Group>)
    ensures Headings(PageOf(gs)) == GroupNames(gs)
    ensures Shown(PageOf(gs)) == EntriesOf(Flatten(gs))
  {
    if gs != [] {
      var g := gs[0];
      PageContents(gs[1..]);
      BoxesShown(g.cards);
      ShownAppend([Heading(g.name)], Boxes(g.cards));
      ShownAppend([Heading(g.name)] + Boxes(g.cards), PageOf(gs[1..]));
      EntriesAppend(g.cards, Flatten(gs[1..]));
    }
  }

  lemma {:induction false} EntriesAppend(a: seq<Card>, b: seq<Card>)
    ensures EntriesOf(a + b) == EntriesOf(a) + EntriesOf(b)
  {
    if a == [] {
      assert a + b == b;
    } else {
      assert (a + b)[0] == a[0];
      assert (a + b)[1..] == a[1..] + b;
      EntriesAppend(a[1..], b);
    }
  }

  /** For the view's own groups: the headings are the covered Pokémon in
      ascending order, one box per named card, and no box reads "N/A". */
  lemma GalleryOfView(view: seq<Card>)
    ensures Headings(PageOf(Groups(view))) == GroupKeys(view)
    ensures |Shown(PageOf(Groups(view)))| == |Filter(view, Named)|
    ensures forall e :: e in Shown(PageOf(Groups(view))) ==> e.price.Amount?
  {
    var gs := Groups(view);
    PageContents(gs);
    GroupsPartition(view);
    assert GroupNames(gs) == GroupKeys(view);
  }
}
