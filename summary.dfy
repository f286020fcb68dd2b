/** The sidebar summary (app.py:155-159) and the grouping of the filtered
    view for display (app.py:166-172). */
module Summary {
  import opened Seqs
  import opened Text
  import opened Cards
  import opened Filters

  // ----- ordering by card number -----

  /** The order of `sort_values(by='card_number')`: numbers ascending, a
      missing number after every present one. */
  predicate NumberLe(a: Option<int>, b: Option<int>)
  {
    match (a, b)
    case (Some(x), Some(y)) => x <= y
    case (Some(_), None) => true
    case (None, Some(_)) => false
    case (None, None) => true
  }

  predicate SortedByNumber(cards: seq<Card>)
  {
    forall i, j :: 0 <= i < j < |cards| ==> NumberLe(cards[i].cardNumber, cards[j].cardNumber)
  }

  function InsertByNumber(c: Card, s: seq<Card>): (r: seq<Card>)
    requires SortedByNumber(s)
    ensures multiset(r) == multiset(s) + multiset{c}
    ensures SortedByNumber(r)
  {
    if s == [] then [c]
    else if NumberLe(c.cardNumber, s[0].cardNumber) then
      PrependSorted(c, s);
      [c] + s
    else
      var rest := InsertByNumber(c, s[1..]);
      assert s == [s[0]] + s[1..];
      assert forall k :: 0 <= k < |rest| ==> NumberLe(s[0].cardNumber, rest[k].cardNumber) by {
        forall k | 0 <= k < |rest| ensures NumberLe(s[0].cardNumber, rest[k].cardNumber) {
          assert rest[k] in multiset(rest);
          assert rest[k] == c || rest[k] in s[1..];
        }
      }
      PrependSorted(s[0], rest);
      [s[0]] + rest
  }

  /** A card that sorts before the first card of a sorted table keeps it
      sorted when placed in front. */
  lemma PrependSorted(c: Card, s: seq<Card>)
    requires SortedByNumber(s)
    requires s != [] ==> NumberLe(c.cardNumber, s[0].cardNumber)
    ensures SortedByNumber([c] + s)
  {
    forall i, j | 0 <= i < j < |[c] + s|
      ensures NumberLe(([c] + s)[i].cardNumber, ([c] + s)[j].cardNumber)
    {
      if i == 0 {
        NumberLeTransitive(c.cardNumber, s[0].cardNumber, s[j - 1].cardNumber);
      } else {
        assert ([c] + s)[i] == s[i - 1] && ([c] + s)[j] == s[j - 1];
      }
    }
  }

  lemma NumberLeTransitive(a: Option<int>, b: Option<int>, c: Option<int>)
    requires NumberLe(a, b) && NumberLe(b, c)
    ensures NumberLe(a, c)
  {
  }

  /** The cards of one group sorted by card number. Ties may come out in any
      order: the default sort of `sort_values` is not stable. */
  function SortByNumber(s: seq<Card>): (r: seq<Card>)
    ensures multiset(r) == multiset(s)
    ensures SortedByNumber(r)
  {
    if s == [] then []
    else
      assert s == [s[0]] + s[1..];
      InsertByNumber(s[0], SortByNumber(s[1..]))
  }

  // ----- grouping by Pokémon name -----

  /** The names present, row by row; `groupby` and `nunique` skip NaN names. */
  function Names(view: seq<Card>): (r: seq<string>)
    ensures forall n :: n in r <==> exists c :: c in view && c.pokemonName == Some(n)
  {
    if view == [] then []
    else
      var rest := Names(view[1..]);
      assert forall c :: c in view <==> c == view[0] || c in view[1..];
      match view[0].pokemonName
      case Some(n) => [n] + rest
      case None => rest
  }

  /** The group keys of `groupby("pokemon_name")`: each present name once,
      ascending. */
  function GroupKeys(view: seq<Card>): (r: seq<string>)
    ensures AscendingStrings(r)
    ensures NoDup(r)
    ensures forall n :: n in r <==> exists c :: c in view && c.pokemonName == Some(n)
    ensures |r| == |Distinct(Names(view))|
  {
    var d := Distinct(Names(view));
    SortDistinctAscending(d);
    var r := SortStrings(d);
    assert NoDup(r) by {
      forall i, j | 0 <= i < j < |r| ensures r[i] != r[j] {
        StrLtIrreflexive(r[i]);
      }
    }
    r
  }

  /** The mask of one group. */
  function NamedAs(name: string): Card -> bool
  {
    (c: Card) => c.pokemonName == Some(name)
  }

  predicate Named(c: Card)
  {
    c.pokemonName.Some?
  }

  /** One group of the display: its name and its cards in card-number order. */
  datatype Group = Group(name: string, cards: seq<Card>)

  function GroupOf(view: seq<Card>, name: string): Group
  {
    Group(name, SortByNumber(Filter(view, NamedAs(name))))
  }

  function GroupsFor(view: seq<Card>, keys: seq<string>): (gs: seq<Group>)
    ensures |gs| == |keys|
    ensures forall i :: 0 <= i < |gs| ==> gs[i] == GroupOf(view, keys[i])
  {
    if keys == [] then [] else [GroupOf(view, keys[0])] + GroupsFor(view, keys[1..])
  }

  /** app.py:166-172: one group per present name, in ascending name order;
      each holds exactly the cards of that name, sorted by card number. */
  function Groups(view: seq<Card>): (gs: seq<Group>)
    ensures |gs| == |GroupKeys(view)|
    ensures forall i :: 0 <= i < |gs| ==> gs[i].name == GroupKeys(view)[i]
    ensures forall i :: 0 <= i < |gs| ==> |gs[i].cards| > 0 && SortedByNumber(gs[i].cards)
    ensures forall i :: 0 <= i < |gs| ==>
              multiset(gs[i].cards) == multiset(Filter(view, NamedAs(gs[i].name)))
    ensures forall i, c :: 0 <= i < |gs| && c in gs[i].cards ==> c in view && c.pokemonName == Some(gs[i].name)
  {
    var keys := GroupKeys(view);
    var gs := GroupsFor(view, keys);
    forall i | 0 <= i < |gs| ensures |gs[i].cards| > 0 {
      var f := Filter(view, NamedAs(keys[i]));
      assert keys[i] in keys;
      var c :| c in view && c.pokemonName == Some(keys[i]);
      assert c in f;
      assert c in multiset(gs[i].cards);
    }
    forall i, c | 0 <= i < |gs| && c in gs[i].cards
      ensures c in view && c.pokemonName == Some(gs[i].name)
    {
      assert c in multiset(Filter(view, NamedAs(keys[i])));
    }
    gs
  }

  /** All cards of the groups, group after group. */
  function Flatten(gs: seq<Group>): seq<Card>
  {
    if gs == [] then [] else gs[0].cards + Flatten(gs[1..])
  }

  lemma {:induction false} FlattenCount(view: seq<Card>, keys: seq<string>, x: Card)
    requires NoDup(keys)
    ensures multiset(Flatten(GroupsFor(view, keys)))[x] ==
            if x.pokemonName.Some? && x.pokemonName.value in keys then multiset(view)[x] else 0
  {
    if keys != [] {
      var total := multiset(Flatten(GroupsFor(view, keys)))[x];
      var first := multiset(Filter(view, NamedAs(keys[0])))[x];
      var rest := multiset(Flatten(GroupsFor(view, keys[1..])))[x];
      var inHead := x.pokemonName == Some(keys[0]);
      var inTail := x.pokemonName.Some? && x.pokemonName.value in keys[1..];
      FlattenStep(view, keys, x);
      HeadNotInTail(keys);
      FlattenCount(view, keys[1..], x);
      FilterCount(view, NamedAs(keys[0]), x);
      assert total == first + rest;
      assert first == if inHead then multiset(view)[x] else 0;
      assert rest == if inTail then multiset(view)[x] else 0;
      assert !(inHead && inTail);
      assert (x.pokemonName.Some? && x.pokemonName.value in keys) == (inHead || inTail) by {
        assert keys == [keys[0]] + keys[1..];
      }
    }
  }

  /** The first group adds the cards of the first name to the rest. */
  lemma FlattenStep(view: seq<Card>, keys: seq<string>, x: Card)
    requires keys != []
    ensures multiset(Flatten(GroupsFor(view, keys)))[x] ==
            multiset(Filter(view, NamedAs(keys[0])))[x] + multiset(Flatten(GroupsFor(view, keys[1..])))[x]
  {
    var gs := GroupsFor(view, keys);
    assert gs[1..] == GroupsFor(view, keys[1..]);
    assert multiset(gs[0].cards) == multiset(Filter(view, NamedAs(keys[0])));
    assert multiset(Flatten(gs)) == multiset(gs[0].cards) + multiset(Flatten(gs[1..]));
  }

  /** The tail of a sequence without duplicates has none, and lacks the head. */
  lemma HeadNotInTail(keys: seq<string>)
    requires NoDup(keys) && keys != []
    ensures NoDup(keys[1..]) && keys[0] !in keys[1..]
  {
    forall i, j | 0 <= i < j < |keys[1..]| ensures keys[1..][i] != keys[1..][j] {
      assert keys[1..][i] == keys[i + 1] && keys[1..][j] == keys[j + 1];
    }
    forall k | 0 <= k < |keys[1..]| ensures keys[1..][k] != keys[0] {
      assert keys[1..][k] == keys[k + 1];
    }
  }

  /** The groups partition the named cards of the view: every card with a
      name is in exactly as many copies as in the view, in the group of its
      name, and a card without a name is in none (`groupby` drops NaN keys). */
  lemma GroupsPartition(view: seq<Card>)
    ensures multiset(Flatten(Groups(view))) == multiset(Filter(view, Named))
    ensures |Flatten(Groups(view))| == |Filter(view, Named)|
  {
    var keys := GroupKeys(view);
    forall x ensures multiset(Flatten(Groups(view)))[x] == multiset(Filter(view, Named))[x] {
      FlattenCount(view, keys, x);
      FilterCount(view, Named, x);
      if x.pokemonName.Some? && multiset(view)[x] > 0 {
        assert x in view;
        assert x.pokemonName.value in keys;
      }
    }
    assert multiset(Flatten(Groups(view))) == multiset(Filter(view, Named));
    assert |multiset(Flatten(Groups(view)))| == |Filter(view, Named)|;
  }

  /** When every card has a name, every card of the view is displayed once. */
  lemma AllNamedAllShown(view: seq<Card>)
    requires forall c :: c in view ==> Named(c)
    ensures multiset(Flatten(Groups(view))) == multiset(view)
  {
    GroupsPartition(view);
  }

  // ----- the sidebar statistics -----

  datatype Summary = Summary(
    cardCount: nat,      // len(df)
    pokemonCount: nat,   // nunique of pokemon_name
    totalValue: real,    // sum of price
    minSum: real,        // sum over groups of the cheapest price
    maxSum: real)        // sum over groups of the dearest price

  predicate NonEmptyGroups(gs: seq<Group>)
  {
    forall i :: 0 <= i < |gs| ==> |gs[i].cards| > 0
  }

  function SumOfMins(gs: seq<Group>): real
    requires NonEmptyGroups(gs)
  {
    if gs == [] then 0.0 else Min(Prices(gs[0].cards)) + SumOfMins(gs[1..])
  }

  function SumOfMaxs(gs: seq<Group>): real
    requires NonEmptyGroups(gs)
  {
    if gs == [] then 0.0 else Max(Prices(gs[0].cards)) + SumOfMaxs(gs[1..])
  }

  /** app.py:155-159. The summary counts the cards of the view, has one
      covered Pokémon per display group and never more than cards, totals
      the prices of the view, sums the cheapest and the dearest price of each
      group, and its per-Pokémon range is never inverted; an empty view
      gives zeros throughout. */
  function Summarize(view: seq<Card>): (s: Summary)
    ensures s.cardCount == |view|
    ensures s.pokemonCount == |Groups(view)|
    ensures s.totalValue == Sum(Prices(view))
    ensures s.minSum == SumOfMins(Groups(view)) && s.maxSum == SumOfMaxs(Groups(view))
    ensures s.pokemonCount <= s.cardCount
    ensures s.minSum <= s.maxSum
    ensures view == [] ==> s == Summary(0, 0, 0.0, 0.0, 0.0)
  {
    var gs := Groups(view);
    MinsBelowMaxs(gs);
    NamesLength(view);
    assert view == [] ==> Prices(view) == [];
    Summary(|view|, |Distinct(Names(view))|, Sum(Prices(view)), SumOfMins(gs), SumOfMaxs(gs))
  }

  lemma {:induction false} MinsBelowMaxs(gs: seq<Group>)
    requires NonEmptyGroups(gs)
    ensures SumOfMins(gs) <= SumOfMaxs(gs)
  {
    if gs != [] {
      var xs := Prices(gs[0].cards);
      assert Min(xs) <= xs[0] <= Max(xs);
      MinsBelowMaxs(gs[1..]);
    }
  }

  /** The present names are no more than the cards. */
  lemma {:induction false} NamesLength(view: seq<Card>)
    ensures |Names(view)| <= |view|
  {
    if view != [] {
      NamesLength(view[1..]);
    }
  }

  /** The term a group adds to the min-sum is the price of one of the view's
      cards of that name, and no card of that name is cheaper. */
  lemma GroupMinIsCheapest(view: seq<Card>, i: nat)
    requires i < |Groups(view)|
    ensures var g := Groups(view)[i];
            (exists c :: c in view && c.pokemonName == Some(g.name) && c.price == Min(Prices(g.cards))) &&
            (forall c :: c in view && c.pokemonName == Some(g.name) ==> Min(Prices(g.cards)) <= c.price)
  {
    var g := Groups(view)[i];
    var xs := Prices(g.cards);
    var j :| 0 <= j < |xs| && xs[j] == Min(xs);
    assert g.cards[j] in g.cards;
    forall c | c in view && c.pokemonName == Some(g.name) ensures Min(xs) <= c.price {
      var k := InGroup(view, i, c);
      assert xs[k] == c.price;
    }
  }

  /** The term a group adds to the max-sum is the price of one of the view's
      cards of that name, and no card of that name is dearer. */
  lemma GroupMaxIsDearest(view: seq<Card>, i: nat)
    requires i < |Groups(view)|
    ensures var g := Groups(view)[i];
            (exists c :: c in view && c.pokemonName == Some(g.name) && c.price == Max(Prices(g.cards))) &&
            (forall c :: c in view && c.pokemonName == Some(g.name) ==> c.price <= Max(Prices(g.cards)))
  {
    var g := Groups(view)[i];
    var xs := Prices(g.cards);
    var j :| 0 <= j < |xs| && xs[j] == Max(xs);
    assert g.cards[j] in g.cards;
    forall c | c in view && c.pokemonName == Some(g.name) ensures c.price <= Max(xs) {
      var k := InGroup(view, i, c);
      assert xs[k] == c.price;
    }
  }

  /** Every card of the view lies in the group of its name. */
  lemma InGroup(view: seq<Card>, i: nat, c: Card) returns (k: nat)
    requires i < |Groups(view)|
    requires c in view && c.pokemonName == Some(Groups(view)[i].name)
    ensures k < |Groups(view)[i].cards| && Groups(view)[i].cards[k] == c
  {
    var g := Groups(view)[i];
    FilterCount(view, NamedAs(g.name), c);
    assert c in multiset(g.cards);
    k :| 0 <= k < |g.cards| && g.cards[k] == c;
  }
}
