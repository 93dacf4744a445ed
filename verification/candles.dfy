/**
  Candles and the current price of a tick: the candles are sorted by start
  time and the close of the last one is the current price.

  Only a candle's start time and close take part in the decision; the other
  columns of the data frame are not modelled. The sort is an insertion sort
  that keeps equal start times in input order; the data frame's sort does not
  promise that, so the properties of the current price below either hold for
  whichever candle among the latest it picks or assume distinct start times.
*/
module Candles {

  datatype Candle = Candle(startTime: int, close: real)

  ghost predicate SortedByTime(s: seq<Candle>)
  {
    forall i, j :: 0 <= i < j < |s| ==> s[i].startTime <= s[j].startTime
  }

  /** Start times strictly increase: no two candles share one. */
  ghost predicate StrictlyByTime(s: seq<Candle>)
  {
    forall i, j :: 0 <= i < j < |s| ==> s[i].startTime < s[j].startTime
  }

  /** Candle `i` has the latest start time of `s`. */
  ghost predicate IsLatest(s: seq<Candle>, i: int)
  {
    0 <= i < |s| && forall j :: 0 <= j < |s| ==> s[j].startTime <= s[i].startTime
  }

  /** Putting a candle no later than the first one in front keeps the order. */
  lemma SortedCons(c: Candle, s: seq<Candle>)
    requires SortedByTime(s)
    requires s != [] ==> c.startTime <= s[0].startTime
    ensures SortedByTime([c] + s)
  {
    var t := [c] + s;
    forall i, j | 0 <= i < j < |t|
      ensures t[i].startTime <= t[j].startTime
    {
      if i == 0 && j > 1 {
        assert t[1] == s[0] && t[j] == s[j - 1];
      }
    }
  }

  function Insert(c: Candle, s: seq<Candle>): (r: seq<Candle>)
    requires SortedByTime(s)
    ensures SortedByTime(r)
    ensures multiset(r) == multiset(s) + multiset{c}
    ensures |r| == |s| + 1
    ensures r[0] == c || (s != [] && r[0] == s[0])
  {
    if s == [] then [c]
    else if c.startTime <= s[0].startTime then
      SortedCons(c, s);
      [c] + s
    else
      var rest := Insert(c, s[1..]);
      assert s == [s[0]] + s[1..];
      SortedCons(s[0], rest);
      [s[0]] + rest
  }

  /** `sort_index()` over the start times. */
  function SortByTime(s: seq<Candle>): (r: seq<Candle>)
    ensures SortedByTime(r)
    ensures multiset(r) == multiset(s)
    ensures |r| == |s|
  {
    if s == [] then []
    else
      assert s == [s[0]] + s[1..];
      Insert(s[0], SortByTime(s[1..]))
  }

  /** The close of the last candle in time order (`df['close'].iloc[-1]`). */
  function CurrentPrice(candles: seq<Candle>): (price: real)
    requires |candles| > 0
    ensures exists i :: IsLatest(candles, i) && candles[i].close == price
  {
    var sorted := SortByTime(candles);
    var last := sorted[|sorted| - 1];
    assert last in multiset(candles) by {
      assert last in multiset(sorted);
    }
    var i :| 0 <= i < |candles| && candles[i] == last;
    assert IsLatest(candles, i) by {
      forall j | 0 <= j < |candles|
        ensures candles[j].startTime <= last.startTime
      {
        assert candles[j] in multiset(sorted);
        var k :| 0 <= k < |sorted| && sorted[k] == candles[j];
      }
    }
    last.close
  }

  /** With distinct start times the price is the close of the latest candle. */
  lemma CurrentPriceOfLatest(candles: seq<Candle>, i: int)
    requires IsLatest(candles, i)
    requires forall j, k :: 0 <= j < k < |candles| ==> candles[j].startTime != candles[k].startTime
    ensures CurrentPrice(candles) == candles[i].close
  {
    var p := CurrentPrice(candles);
    var i' :| IsLatest(candles, i') && candles[i'].close == p;
    assert candles[i'].startTime == candles[i].startTime;
  }

  /** Candles in strictly increasing time order: the price is the close of
      the last one. */
  lemma CurrentPriceOfSorted(candles: seq<Candle>)
    requires |candles| > 0
    requires StrictlyByTime(candles)
    ensures CurrentPrice(candles) == candles[|candles| - 1].close
  {
    CurrentPriceOfLatest(candles, |candles| - 1);
  }
}
