/**
  The dashboard page: four counts, the number of hotels per maincro (at
  most ten bars, largest first), the maincro badges and the five first
  subcros. The counts and the chart are page state, recomputed when the
  three lists it loads are all non-empty.
 */
module Dashboard {
  import opened Wrappers
  import opened Text
  import opened Seqs
  import opened Schema

  datatype Stats = Stats(hotelCount: nat, subcroCount: nat, userCount: nat, mainCroCount: nat)

  datatype ChartItem = ChartItem(name: string, count: nat)

  // ---------------------------------------------------------------------------
  // Hotels per maincro

  /** The maincro a hotel is counted under: that of the first subcro with its `subcroId`, if any. */
  function MaincroOf(h: Hotel, subcros: seq<Subcro>): Option<string> {
    var s := FindSubcro(subcros, h.subcroId);
    if s.Some? then Some(s.value.maincro) else None
  }

  /** The counting object: a count per maincro, and the order its keys were added in. */
  datatype Counts = Counts(counts: map<string, nat>, order: seq<string>)

  /** One hotel added to the counts: `data[m] = (data[m] || 0) + 1` when it has a maincro. */
  function CountOne(c: Counts, m: Option<string>): Counts {
    if m.None? then c
    else if m.value in c.counts then Counts(c.counts[m.value := c.counts[m.value] + 1], c.order)
    else Counts(c.counts[m.value := 1], c.order + [m.value])
  }

  /** The counts after the first hotels. */
  function Tally(hotels: seq<Hotel>, subcros: seq<Subcro>): (r: Counts)
    ensures forall k :: k in r.order <==> k in r.counts
    decreases |hotels|
  {
    if hotels == [] then Counts(map[], [])
    else
      var n := |hotels| - 1;
      CountOne(Tally(hotels[..n], subcros), MaincroOf(hotels[n], subcros))
  }

  /** The `forEach` over the hotels. */
  method CountByMaincro(hotels: seq<Hotel>, subcros: seq<Subcro>) returns (c: Counts)
    ensures c == Tally(hotels, subcros)
  {
    c := Counts(map[], []);
    var i := 0;
    while i < |hotels|
      invariant 0 <= i <= |hotels|
      invariant c == Tally(hotels[..i], subcros)
    {
      assert hotels[..i + 1][..i] == hotels[..i];
      var s := FindSubcro(subcros, hotels[i].subcroId);
      if s.Some? {
        var m := s.value.maincro;
        if m in c.counts {
          c := Counts(c.counts[m := c.counts[m] + 1], c.order);
        } else {
          c := Counts(c.counts[m := 1], c.order + [m]);
        }
      }
      i := i + 1;
    }
    assert hotels[..i] == hotels;
  }

  /** How many of the hotels are counted under `m`. */
  function Matched(hotels: seq<Hotel>, subcros: seq<Subcro>, m: string): nat
    decreases |hotels|
  {
    if hotels == [] then 0
    else
      var n := |hotels| - 1;
      Matched(hotels[..n], subcros, m) + (if MaincroOf(hotels[n], subcros) == Some(m) then 1 else 0)
  }

  /** How many of the hotels have a subcro at all. */
  function MatchedAny(hotels: seq<Hotel>, subcros: seq<Subcro>): (r: nat)
    ensures r <= |hotels|
    decreases |hotels|
  {
    if hotels == [] then 0
    else
      var n := |hotels| - 1;
      MatchedAny(hotels[..n], subcros) + (if MaincroOf(hotels[n], subcros).Some? then 1 else 0)
  }

  /** The counts over the keys, in key order. */
  function SumOver(order: seq<string>, counts: map<string, nat>): nat
    requires forall k :: k in order ==> k in counts
    decreases |order|
  {
    if order == [] then 0
    else SumOver(order[..|order| - 1], counts) + counts[order[|order| - 1]]
  }

  /** Changing a count the keys do not list changes nothing. */
  lemma {:induction false} SumOverOther(order: seq<string>, counts: map<string, nat>, m: string, v: nat)
    requires forall k :: k in order ==> k in counts
    requires m !in order
    ensures SumOver(order, counts[m := v]) == SumOver(order, counts)
    decreases |order|
  {
    if order != [] {
      SumOverOther(order[..|order| - 1], counts, m, v);
    }
  }

  /** Adding one to a key listed once adds one to the sum. */
  lemma {:induction false} SumOverBump(order: seq<string>, counts: map<string, nat>, m: string)
    requires forall k :: k in order ==> k in counts
    requires Distinct(order) && m in order
    ensures SumOver(order, counts[m := counts[m] + 1]) == SumOver(order, counts) + 1
    decreases |order|
  {
    var n := |order| - 1;
    if order[n] == m {
      assert m !in order[..n];
      SumOverOther(order[..n], counts, m, counts[m] + 1);
    } else {
      assert m in order[..n];
      SumOverBump(order[..n], counts, m);
    }
  }

  /** The counting object is well formed: each key listed once, every count positive. */
  ghost predicate WellFormed(c: Counts) {
    && Distinct(c.order)
    && (forall k :: k in c.order <==> k in c.counts)
    && (forall k :: k in c.counts ==> c.counts[k] >= 1)
  }

  /** The count under `m`, 0 when it has none. */
  function CountOf(c: Counts, m: string): nat {
    if m in c.counts then c.counts[m] else 0
  }

  /** Counting one more hotel adds one under its maincro and nothing elsewhere. */
  lemma CountOneOf(c: Counts, m: Option<string>)
    ensures forall k :: CountOf(CountOne(c, m), k) == CountOf(c, k) + (if m == Some(k) then 1 else 0)
  {
  }

  /** The counts are exact, and their sum is the number of hotels that have a subcro. */
  ghost predicate CountsExact(c: Counts, hotels: seq<Hotel>, subcros: seq<Subcro>) {
    && WellFormed(c)
    && (forall m :: CountOf(c, m) == Matched(hotels, subcros, m))
    && SumOver(c.order, c.counts) == MatchedAny(hotels, subcros)
  }

  /** Counting one more hotel keeps the object well formed. */
  lemma CountOneWellFormed(c: Counts, m: Option<string>)
    requires WellFormed(c)
    ensures WellFormed(CountOne(c, m))
  {
    if m.Some? && m.value !in c.counts {
      var order := c.order + [m.value];
      forall i, j | 0 <= i < j < |order| ensures order[i] != order[j] {
        if j == |c.order| {
          assert order[i] in c.order;
        }
      }
    }
  }

  /** Counting one more hotel adds one to the sum when it has a maincro. */
  lemma CountOneSum(c: Counts, m: Option<string>)
    requires WellFormed(c)
    ensures SumOver(CountOne(c, m).order, CountOne(c, m).counts)
            == SumOver(c.order, c.counts) + (if m.Some? then 1 else 0)
  {
    if m.Some? {
      if m.value in c.counts {
        SumOverBump(c.order, c.counts, m.value);
      } else {
        SumOverOther(c.order, c.counts, m.value, 1);
        var order := c.order + [m.value];
        assert order[..|c.order|] == c.order;
      }
    }
  }

  /** One more hotel counted: the counts stay exact for the longer list. */
  lemma CountOneExact(c: Counts, hotels: seq<Hotel>, subcros: seq<Subcro>)
    requires hotels != []
    requires CountsExact(c, hotels[..|hotels| - 1], subcros)
    ensures CountsExact(CountOne(c, MaincroOf(hotels[|hotels| - 1], subcros)), hotels, subcros)
  {
    var n := |hotels| - 1;
    var m := MaincroOf(hotels[n], subcros);
    CountOneWellFormed(c, m);
    CountOneSum(c, m);
    CountOneOf(c, m);
    MatchedStep(hotels, subcros);
  }

  /** The last hotel adds one under its maincro, and one to the hotels with a subcro, when it has one. */
  lemma MatchedStep(hotels: seq<Hotel>, subcros: seq<Subcro>)
    requires hotels != []
    ensures var n, m := |hotels| - 1, MaincroOf(hotels[|hotels| - 1], subcros);
      && (forall k :: Matched(hotels, subcros, k) == Matched(hotels[..n], subcros, k) + (if m == Some(k) then 1 else 0))
      && MatchedAny(hotels, subcros) == MatchedAny(hotels[..n], subcros) + (if m.Some? then 1 else 0)
  {
  }

  /**
    Each hotel whose `subcroId` names a subcro adds one under that subcro's
    maincro; the others are ignored, so the counts add up to at most the
    number of hotels.
   */
  lemma {:induction false} TallyCounts(hotels: seq<Hotel>, subcros: seq<Subcro>)
    ensures CountsExact(Tally(hotels, subcros), hotels, subcros)
    ensures SumOver(Tally(hotels, subcros).order, Tally(hotels, subcros).counts) <= |hotels|
    decreases |hotels|
  {
    if hotels != [] {
      TallyCounts(hotels[..|hotels| - 1], subcros);
      CountOneExact(Tally(hotels[..|hotels| - 1], subcros), hotels, subcros);
    }
  }

  // ---------------------------------------------------------------------------
  // The chart

  /** `Object.entries(data).map(([name, count]) => ({ name, count }))`. */
  function Items(c: Counts): (r: seq<ChartItem>)
    requires forall k :: k in c.order ==> k in c.counts
    ensures |r| == |c.order| && forall i :: 0 <= i < |r| ==> r[i] == ChartItem(c.order[i], c.counts[c.order[i]])
  {
    seq(|c.order|, i requires 0 <= i < |c.order| => ChartItem(c.order[i], c.counts[c.order[i]]))
  }

  /** `b.count - a.count` as an order: a larger count goes first. */
  function MoreFirst(a: ChartItem, b: ChartItem): bool {
    a.count > b.count
  }

  /** `.sort((a, b) => b.count - a.count).slice(0, 10)`. */
  function Top(items: seq<ChartItem>): seq<ChartItem> {
    Slice(SortBy(items, MoreFirst), 0, 10)
  }

  /** The chart of the counts. */
  function Chart(c: Counts): seq<ChartItem>
    requires forall k :: k in c.order ==> k in c.counts
  {
    Top(Items(c))
  }

  /** At most ten bars, in decreasing count, each one of the items. */
  lemma TopSorted(items: seq<ChartItem>)
    ensures var chart := Top(items);
      && |chart| <= 10
      && (forall i, j :: 0 <= i < j < |chart| ==> chart[i].count >= chart[j].count)
      && (forall x :: x in chart ==> x in items)
  {
    var sorted := SortBy(items, MoreFirst);
    SortBySorted(items, MoreFirst);
    forall x | x in Top(items) ensures x in items {
      assert x in multiset(sorted);
    }
  }

  /** No item left out of the chart has a larger count than one shown. */
  lemma TopKeepsLargest(items: seq<ChartItem>)
    ensures forall x, y :: x in items && x !in Top(items) && y in Top(items) ==> y.count >= x.count
  {
    var sorted := SortBy(items, MoreFirst);
    SortBySorted(items, MoreFirst);
    var chart := Top(items);
    forall x, y | x in items && x !in chart && y in chart ensures y.count >= x.count {
      assert x in multiset(sorted);
      var j :| 0 <= j < |sorted| && sorted[j] == x;
      var i :| 0 <= i < |chart| && chart[i] == y;
      assert sorted[i] == y;
      assert j >= |chart|;
    }
  }

  /**
    The chart of the counts: at most ten maincros with their exact counts,
    largest first, and none left out counted more than one shown.
   */
  lemma ChartShape(hotels: seq<Hotel>, subcros: seq<Subcro>)
    ensures var chart := Chart(Tally(hotels, subcros));
      && |chart| <= 10
      && (forall i, j :: 0 <= i < j < |chart| ==> chart[i].count >= chart[j].count)
      && (forall x :: x in chart ==> x.count == Matched(hotels, subcros, x.name) >= 1)
      && (forall x, y :: x in Items(Tally(hotels, subcros)) && x !in chart && y in chart ==> y.count >= x.count)
  {
    var c := Tally(hotels, subcros);
    TallyCounts(hotels, subcros);
    TopSorted(Items(c));
    TopKeepsLargest(Items(c));
    forall x | x in Chart(c) ensures x.count == Matched(hotels, subcros, x.name) >= 1 {
      var i :| 0 <= i < |Items(c)| && Items(c)[i] == x;
      assert CountOf(c, x.name) == x.count;
    }
  }

  // ---------------------------------------------------------------------------
  // Badges and recent subcros

  /** The distinct values in first-seen order (`new Set(values)`). */
  function Dedupe(s: seq<string>): (r: seq<string>)
    ensures Distinct(r)
    ensures forall x :: x in r <==> x in s
    decreases |s|
  {
    if s == [] then []
    else
      var n := |s| - 1;
      var r := Dedupe(s[..n]);
      assert forall x :: x in s <==> x in s[..n] || x == s[n];
      if s[n] in r then r
      else
        assert forall i :: 0 <= i < |r| ==> (r + [s[n]])[i] == r[i];
        r + [s[n]]
  }

  lemma {:induction false} SortDistinct(s: seq<string>)
    requires Distinct(s)
    ensures Distinct(SortBy(s, StringBefore))
    decreases |s|
  {
    if s != [] {
      var n := |s| - 1;
      assert Distinct(s[..n]);
      SortDistinct(s[..n]);
      var sorted := SortBy(s[..n], StringBefore);
      assert s[n] !in s[..n];
      assert s[n] !in sorted by {
        assert s[n] !in multiset(s[..n]);
      }
      InsertDistinct(s[n], sorted);
    }
  }

  /** Sorting distinct strings gives them in strictly ascending order, none lost or added. */
  lemma SortedDistinct(d: seq<string>)
    requires Distinct(d)
    ensures StrictlyAscending(SortBy(d, StringBefore))
    ensures forall m :: m in SortBy(d, StringBefore) <==> m in d
  {
    StringBeforeStrict();
    SortBySorted(d, StringBefore);
    SortDistinct(d);
    SortedDistinctAscending(SortBy(d, StringBefore));
    forall m ensures m in SortBy(d, StringBefore) <==> m in d {
      assert m in SortBy(d, StringBefore) <==> m in multiset(SortBy(d, StringBefore));
    }
  }

  /** `Array.from(new Set(subcros.map(s => s.maincro))).sort()`. */
  function Badges(subcros: seq<Subcro>): (r: seq<string>)
    ensures StrictlyAscending(r)
    ensures forall m :: m in r <==> exists i :: 0 <= i < |subcros| && subcros[i].maincro == m
  {
    var maincros := seq(|subcros|, i requires 0 <= i < |subcros| => subcros[i].maincro);
    var d := Dedupe(maincros);
    SortedDistinct(d);
    forall m | m in maincros ensures exists i :: 0 <= i < |subcros| && subcros[i].maincro == m {
      var i :| 0 <= i < |maincros| && maincros[i] == m;
      assert subcros[i].maincro == m;
    }
    forall m | exists i :: 0 <= i < |subcros| && subcros[i].maincro == m ensures m in maincros {
      var i :| 0 <= i < |subcros| && subcros[i].maincro == m;
      assert maincros[i] == m;
    }
    SortBy(d, StringBefore)
  }

  /** `subcros.slice(0, 5)`. */
  function Recent(subcros: seq<Subcro>): (r: seq<Subcro>)
    ensures |r| == if |subcros| < 5 then |subcros| else 5
    ensures r == subcros[..|r|]
  {
    Slice(subcros, 0, 5)
  }

  // ---------------------------------------------------------------------------
  // The page state

  /** There are no more distinct user ids than rows. */
  lemma {:induction false} DistinctIds(rows: seq<UserViewRow>)
    ensures |set i | 0 <= i < |rows| :: rows[i].id| <= |rows|
    decreases |rows|
  {
    if rows != [] {
      var n := |rows| - 1;
      DistinctIds(rows[..n]);
      var before := set i | 0 <= i < n :: rows[..n][i].id;
      assert (set i | 0 <= i < |rows| :: rows[i].id) == before + {rows[n].id} by {
        forall v | v in before ensures v in (set i | 0 <= i < |rows| :: rows[i].id) {
          var i :| 0 <= i < n && rows[..n][i].id == v;
          assert rows[i].id == v;
        }
        forall v | v in (set i | 0 <= i < |rows| :: rows[i].id) ensures v in before + {rows[n].id} {
          var i :| 0 <= i < |rows| && rows[i].id == v;
          if i < n {
            assert rows[..n][i].id == v;
          }
        }
      }
    }
  }

  class Home {
    var stats: Stats
    var chart: seq<ChartItem>

    constructor()
      ensures stats == Stats(0, 0, 0, 0) && chart == []
    {
      stats := Stats(0, 0, 0, 0);
      chart := [];
    }

    /**
      The effect run when a list changes: nothing unless all three are
      non-empty; then the four counts (users and maincros counted once
      each) and the chart of hotels per maincro.
     */
    method Refresh(hotels: seq<Hotel>, subcros: seq<Subcro>, userView: seq<UserViewRow>)
      modifies this
      ensures hotels == [] || subcros == [] || userView == [] ==> stats == old(stats) && chart == old(chart)
      ensures hotels != [] && subcros != [] && userView != [] ==>
        && stats.hotelCount == |hotels| && stats.subcroCount == |subcros|
        && stats.userCount == |set i | 0 <= i < |userView| :: userView[i].id|
        && stats.userCount <= |userView|
        && stats.mainCroCount == |set i | 0 <= i < |subcros| :: subcros[i].maincro|
        && chart == Chart(Tally(hotels, subcros))
    {
      if hotels == [] || subcros == [] || userView == [] {
        return;
      }
      var maincros := set i | 0 <= i < |subcros| :: subcros[i].maincro;
      var ids := set i | 0 <= i < |userView| :: userView[i].id;
      DistinctIds(userView);
      stats := Stats(|hotels|, |subcros|, |ids|, |maincros|);
      var counts := CountByMaincro(hotels, subcros);
      TallyCounts(hotels, subcros);
      chart := Chart(counts);
    }
  }
}
