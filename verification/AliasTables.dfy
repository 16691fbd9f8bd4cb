/** Weighted distributions sampled through Vose's alias tables, over exact reals. */
module AliasTables {

  const MIN_VALUES: int := 1
  const MAX_VALUES: int := 100

  function Sum(w: seq<real>, k: nat): real
    requires k <= |w|
  {
    if k == 0 then 0.0 else Sum(w, k - 1) + w[k - 1]
  }

  /** The share of column `j` that goes to outcome `i`: its own part, plus its alias part. */
  function Share(p: real, alias: nat, j: nat, i: nat): real {
    (if j == i then p else 0.0) + if alias == i then 1.0 - p else 0.0
  }

  /** What outcome `i` receives from the first `k` columns. A fair roll of the columns picks it with probability `Mass / n`. */
  function Mass(prob: seq<real>, alias: seq<nat>, i: nat, k: nat): real
    requires k <= |prob| == |alias|
  {
    if k == 0 then 0.0 else Mass(prob, alias, i, k - 1) + Share(prob[k - 1], alias[k - 1], k - 1, i)
  }

  /** As `Mass`, counting only the columns already settled. */
  function Settled(prob: seq<real>, alias: seq<nat>, done: seq<bool>, i: nat, k: nat): real
    requires k <= |prob| == |alias| == |done|
  {
    if k == 0 then 0.0
    else Settled(prob, alias, done, i, k - 1) + if done[k - 1] then Share(prob[k - 1], alias[k - 1], k - 1, i) else 0.0
  }

  lemma {:induction false} SettledIsMass(prob: seq<real>, alias: seq<nat>, done: seq<bool>, i: nat, k: nat)
    requires k <= |prob| == |alias| == |done|
    requires forall j :: 0 <= j < k ==> done[j]
    ensures Settled(prob, alias, done, i, k) == Mass(prob, alias, i, k)
  {
    if k != 0 {
      SettledIsMass(prob, alias, done, i, k - 1);
    }
  }

  lemma {:induction false} SettleOne(prob: seq<real>, alias: seq<nat>, done: seq<bool>, i: nat, k: nat, l: nat, p: real, g: nat)
    requires k <= |prob| == |alias| == |done| && l < |done| && !done[l]
    ensures Settled(prob[l := p], alias[l := g], done[l := true], i, k)
         == Settled(prob, alias, done, i, k) + if l < k then Share(p, g, l, i) else 0.0
  {
    if k != 0 {
      SettleOne(prob, alias, done, i, k - 1, l, p, g);
    }
  }

  /** By how much the unsettled columns together exceed one each. */
  function Excess(scaled: seq<real>, done: seq<bool>, k: nat): real
    requires k <= |scaled| == |done|
  {
    if k == 0 then 0.0 else Excess(scaled, done, k - 1) + if done[k - 1] then 0.0 else scaled[k - 1] - 1.0
  }

  lemma {:induction false} ExcessAfterStep(scaled: seq<real>, done: seq<bool>, k: nat, l: nat, g: nat, x: real)
    requires k <= |scaled| == |done| && l < |done| && g < |done| && l != g && !done[l] && !done[g]
    ensures Excess(scaled[g := x], done[l := true], k)
         == Excess(scaled, done, k) - (if l < k then scaled[l] - 1.0 else 0.0) + if g < k then x - scaled[g] else 0.0
  {
    if k != 0 {
      ExcessAfterStep(scaled, done, k - 1, l, g, x);
    }
  }

  lemma {:induction false} InitialExcess(w: seq<real>, scaled: seq<real>, done: seq<bool>, sum: real, k: nat)
    requires k <= |w| == |scaled| == |done| && sum > 0.0
    requires forall j :: 0 <= j < |w| ==> scaled[j] == w[j] * |w| as real / sum && !done[j]
    ensures Excess(scaled, done, k) * sum == Sum(w, k) * |w| as real - k as real * sum
  {
    if k != 0 {
      InitialExcess(w, scaled, done, sum, k - 1);
      var n := |w| as real;
      var e := Excess(scaled, done, k - 1);
      assert scaled[k - 1] * sum == w[k - 1] * n;
      Distribute(e, scaled[k - 1] - 1.0, sum);
      Distribute(scaled[k - 1], -1.0, sum);
      Distribute(Sum(w, k - 1), w[k - 1], n);
      Distribute((k - 1) as real, 1.0, sum);
    }
  }

  lemma ProductBounds(a: real, u: real)
    requires a >= 0.0 && 0.0 <= u <= 1.0
    ensures 0.0 <= a * u <= a
  {
    assert a * (1.0 - u) >= 0.0;
    assert a * u + a * (1.0 - u) == a;
  }

  lemma Distribute(a: real, b: real, c: real)
    ensures (a + b) * c == a * c + b * c
  {
  }

  /** If no unsettled column reaches one, the excess is negative unless none is left. */
  lemma {:induction false} AllSmall(scaled: seq<real>, done: seq<bool>, k: nat)
    requires k <= |scaled| == |done|
    requires forall j :: 0 <= j < |done| && !done[j] ==> scaled[j] < 1.0
    ensures Excess(scaled, done, k) <= 0.0
    ensures forall j :: 0 <= j < k && !done[j] ==> Excess(scaled, done, k) < 0.0
  {
    if k != 0 {
      AllSmall(scaled, done, k - 1);
    }
  }

  /** If every unsettled column has at least one, each is bounded by the excess. */
  lemma {:induction false} AllLarge(scaled: seq<real>, done: seq<bool>, k: nat)
    requires k <= |scaled| == |done|
    requires forall j :: 0 <= j < |done| && !done[j] ==> scaled[j] >= 1.0
    ensures Excess(scaled, done, k) >= 0.0
    ensures forall j :: 0 <= j < k && !done[j] ==> scaled[j] - 1.0 <= Excess(scaled, done, k)
  {
    if k != 0 {
      AllLarge(scaled, done, k - 1);
    }
  }

  predicate Distinct(q: seq<int>) {
    forall a, b :: 0 <= a < b < |q| ==> q[a] != q[b]
  }

  /** The two queues hold exactly the unsettled columns, each once. */
  predicate QueuesCover(done: seq<bool>, small: seq<nat>, large: seq<nat>) {
    && Distinct(small) && Distinct(large)
    && (forall j :: j in small ==> j < |done| && !done[j] && j !in large)
    && (forall j :: j in large ==> j < |done| && !done[j] && j !in small)
    && (forall j :: 0 <= j < |done| && !done[j] ==> j in small || j in large)
  }

  /** Settled columns are final; every outcome's settled mass plus what it still holds is its scaled weight. */
  ghost predicate TablesInv(orig: seq<real>, scaled: seq<real>, prob: seq<real>, alias: seq<nat>, done: seq<bool>) {
    && |orig| == |scaled| == |prob| == |alias| == |done|
    && (forall j :: 0 <= j < |done| ==> 0.0 <= prob[j] <= 1.0 && alias[j] < |done|)
    && (forall i :: 0 <= i < |done| ==>
          Settled(prob, alias, done, i, |done|) + (if done[i] then 0.0 else scaled[i]) == orig[i])
  }

  lemma StepKeepsTables(orig: seq<real>, scaled: seq<real>, prob: seq<real>, alias: seq<nat>, done: seq<bool>, l: nat, g: nat)
    requires TablesInv(orig, scaled, prob, alias, done)
    requires l < |done| && g < |done| && l != g && !done[l] && !done[g]
    requires 0.0 <= scaled[l] <= 1.0
    ensures TablesInv(orig, scaled[g := scaled[g] + scaled[l] - 1.0], prob[l := scaled[l]], alias[l := g], done[l := true])
  {
    var p := scaled[l];
    forall i | 0 <= i < |done|
      ensures Settled(prob[l := p], alias[l := g], done[l := true], i, |done|)
              + (if done[l := true][i] then 0.0 else scaled[g := scaled[g] + p - 1.0][i]) == orig[i]
    {
      SettleOne(prob, alias, done, i, |done|, l, p, g);
    }
  }

  lemma LeftoverKeepsTables(orig: seq<real>, scaled: seq<real>, prob: seq<real>, alias: seq<nat>, done: seq<bool>, l: nat)
    requires TablesInv(orig, scaled, prob, alias, done)
    requires l < |done| && !done[l] && scaled[l] == 1.0
    ensures TablesInv(orig, scaled, prob[l := 1.0], alias, done[l := true])
  {
    assert alias[l := alias[l]] == alias;
    forall i | 0 <= i < |done|
      ensures Settled(prob[l := 1.0], alias, done[l := true], i, |done|)
              + (if done[l := true][i] then 0.0 else scaled[i]) == orig[i]
    {
      SettleOne(prob, alias, done, i, |done|, l, 1.0, alias[l]);
    }
  }

  lemma {:induction false} NothingSettled(prob: seq<real>, alias: seq<nat>, done: seq<bool>, i: nat, k: nat)
    requires k <= |prob| == |alias| == |done|
    requires forall j :: 0 <= j < |done| ==> !done[j]
    ensures Settled(prob, alias, done, i, k) == 0.0
  {
    if k != 0 {
      NothingSettled(prob, alias, done, i, k - 1);
    }
  }

  /** The tables are within bounds and, whenever some weight is positive, give every outcome exactly its weight. */
  ghost predicate Exact(w: seq<real>, prob: seq<real>, alias: seq<nat>) {
    && |prob| == |alias| == |w|
    && (forall j :: 0 <= j < |w| ==> 0.0 <= prob[j] <= 1.0 && alias[j] < |w|)
    && var sum := Sum(w, |w|);
       sum > 0.0 ==> forall i :: 0 <= i < |w| ==> Mass(prob, alias, i, |w|) == w[i] * |w| as real / sum
  }

  type Unit = u: real | 0.0 <= u < 1.0 witness 0.0

  /** What the seeded generator gives: raw integers for the shuffle and the count, reals in [0, 1) for the weights. */
  datatype Draws = Draws(swap: nat -> nat, count: nat, unit: nat -> Unit)

  function Swap(s: seq<int>, i: nat, j: nat): seq<int>
    requires i < |s| && j < |s|
  {
    s[i := s[j]][j := s[i]]
  }

  /** A draw below `n`. */
  function Below(raw: nat, n: nat): (r: nat)
    requires n > 0
    ensures r < n && (raw < n ==> r == raw)
  {
    raw % n
  }

  /** Fisher-Yates from position `n - 1` down: each position is swapped with a drawn one at or below it. */
  function Shuffled(s: seq<int>, swap: nat -> nat, n: nat): (t: seq<int>)
    requires n <= |s|
    ensures |t| == |s|
    decreases n
  {
    if n == 0 then s else Shuffled(Swap(s, n - 1, Below(swap(n - 1), n)), swap, n - 1)
  }

  lemma {:induction false} DrawsBelow(s: seq<int>, a: nat -> nat, b: nat -> nat, n: nat)
    requires n <= |s| && forall i :: 0 <= i < n ==> a(i) == b(i)
    ensures Shuffled(s, a, n) == Shuffled(s, b, n)
    decreases n
  {
    if n > 0 {
      DrawsBelow(Swap(s, n - 1, Below(a(n - 1), n)), a, b, n - 1);
    }
  }

  predicate SameElements(s: seq<int>, t: seq<int>) {
    |s| == |t| && Distinct(s) && Distinct(t) && forall x :: x in t ==> x in s
  }

  lemma SwapKeeps(s: seq<int>, i: nat, j: nat)
    requires i < |s| && j < |s| && Distinct(s)
    ensures Distinct(Swap(s, i, j)) && forall x :: x in Swap(s, i, j) <==> x in s
  {
    var t := Swap(s, i, j);
    forall x | x in s
      ensures x in t
    {
      var k :| 0 <= k < |s| && s[k] == x;
      assert t[if k == i then j else if k == j then i else k] == x;
    }
  }

  function Offsets(span: nat): (s: seq<int>)
    ensures |s| == span + 1 && forall i :: 0 <= i <= span ==> s[i] == i
  {
    seq(span + 1, i => i)
  }

  lemma FrontOf(span: nat, t: seq<int>, k: nat)
    requires SameElements(Offsets(span), t) && k <= |t|
    ensures Distinct(t[..k]) && forall v :: v in t[..k] ==> 0 <= v <= span
  {
    forall v | v in t[..k]
      ensures 0 <= v <= span
    {
      assert v in t;
    }
  }

  /** The values drawn from a range of `span + 1`: one to a hundred of them, yet never all of a larger range. */
  function Chosen(span: nat, draws: Draws): seq<int> {
    Shuffled(Offsets(span), draws.swap, span + 1)[..CountFrom(span, draws.count)]
  }

  function CountFrom(span: nat, raw: nat): (n: nat)
    ensures 1 <= n <= 100 && n <= span + 1
  {
    1 + Below(raw, if span < 1 then 1 else if span > 100 then 100 else span)
  }

  /** Every order of the candidates can come out of the shuffle. */
  lemma {:induction false} AnyOrder(s: seq<int>, t: seq<int>, n: nat) returns (swap: nat -> nat)
    requires SameElements(s, t) && n <= |s| && s[n..] == t[n..]
    ensures Shuffled(s, swap, n) == t
    decreases n
  {
    if n == 0 {
      swap := _ => 0;
      assert s == s[0..] && t == t[0..];
    } else {
      var j := RightSwap(s, t, n);
      var rest := AnyOrder(Swap(s, n - 1, j), t, n - 1);
      swap := i => if i == n - 1 then j else rest(i);
      DrawsBelow(Swap(s, n - 1, j), swap, rest, n - 1);
    }
  }

  lemma RightSwap(s: seq<int>, t: seq<int>, n: nat) returns (j: nat)
    requires SameElements(s, t) && 0 < n <= |s| && s[n..] == t[n..]
    ensures j < n && SameElements(Swap(s, n - 1, j), t) && Swap(s, n - 1, j)[n - 1..] == t[n - 1..]
  {
    assert t[n - 1] in t;
    j :| 0 <= j < |s| && s[j] == t[n - 1];
    SwapKeeps(s, n - 1, j);
    var s' := Swap(s, n - 1, j);
    assert s'[n..] == s[n..];
    assert s'[n - 1..] == [s'[n - 1]] + s'[n..] && t[n - 1..] == [t[n - 1]] + t[n..];
  }

  /** What breaking off parts of a stick leaves after `n` of them. */
  function LeftOver(unit: nat -> Unit, n: nat): (x: real)
    ensures 0.0 <= x <= 1.0
  {
    if n == 0 then 1.0
    else
      ProductBounds(LeftOver(unit, n - 1), 1.0 - unit(n - 1));
      LeftOver(unit, n - 1) * (1.0 - unit(n - 1))
  }

  function Part(left: real, u: real): real {
    left * u
  }

  /** Stick-breaking weights: each is a drawn part of what the earlier ones left of one. */
  function BrokenStick(unit: nat -> Unit, n: nat): (w: seq<real>)
    ensures |w| == n
  {
    if n == 0 then [] else BrokenStick(unit, n - 1) + [Part(1.0 - Sum(BrokenStick(unit, n - 1), n - 1), unit(n - 1))]
  }

  /** The parts and what is left make up one, and no part is negative. */
  lemma {:induction false} StickIsWhole(unit: nat -> Unit, n: nat)
    ensures Sum(BrokenStick(unit, n), n) + LeftOver(unit, n) == 1.0
    ensures forall j :: 0 <= j < n ==> 0.0 <= BrokenStick(unit, n)[j] <= 1.0
  {
    if n > 0 {
      StickIsWhole(unit, n - 1);
      var w, left, u := BrokenStick(unit, n - 1), LeftOver(unit, n - 1), unit(n - 1);
      var x := Part(left, u);
      assert 1.0 - Sum(w, n - 1) == left;
      assert BrokenStick(unit, n) == w + [x];
      SumSnoc(w, x);
      ProductBounds(left, u);
      assert LeftOver(unit, n) == left - x;
    }
  }

  /** One draw after the other. */
  function Drawn(unit: nat -> Unit, n: nat): (w: seq<real>)
    ensures |w| == n && forall j :: 0 <= j < n ==> w[j] == unit(j)
  {
    seq(n, j requires 0 <= j < n => unit(j))
  }

  class InnerWeightedDist {
    var minValue: int
    var maxValue: int
    var biased: bool
    var values: seq<int>
    var weights: seq<real>
    var alias: seq<nat>
    var prob: seq<real>

    /** What `reseed` establishes and sampling relies on. */
    ghost predicate Valid()
      reads this
    {
      && 1 <= |values| == |prob| == |alias|
      && (forall v :: v in values ==> 0 <= v <= maxValue - minValue)
      && Distinct(values) && |weights| == |values|
      && Exact(weights, prob, alias)
    }

    constructor (min: int, max: int, biased: bool, draws: Draws)
      requires min <= max
      ensures minValue == min && maxValue == max && this.biased == biased && Valid() && Follows(draws)
    {
      minValue, maxValue, this.biased := min, max, biased;
      values, weights, alias, prob := [], [], [], [];
      new;
      Reseed(draws);
    }

    /** Values and weights are those the draws give. */
    ghost predicate Follows(draws: Draws)
      reads this
      requires minValue <= maxValue
    {
      && values == Chosen(maxValue - minValue, draws)
      && weights == if biased then BrokenStick(draws.unit, |values|) else Drawn(draws.unit, |values|)
    }

    /** Fresh values, weights and tables for the same range. */
    method Reseed(draws: Draws)
      requires minValue <= maxValue
      modifies this
      ensures minValue == old(minValue) && maxValue == old(maxValue) && biased == old(biased)
      ensures Valid() && Follows(draws)
    {
      GenValues(draws);
      if biased {
        GenBiasedWeights(draws);
      } else {
        GenUniformWeights(draws);
      }
      GenTables();
    }

    /** Distinct offsets into the range: as many as drawn, between one and a hundred, from a shuffle of them all. */
    method GenValues(draws: Draws)
      requires minValue <= maxValue
      modifies this`values
      ensures values == Chosen(maxValue - minValue, draws)
      ensures 1 <= |values| <= MAX_VALUES
      ensures forall v :: v in values ==> 0 <= v <= maxValue - minValue
      ensures Distinct(values)
    {
      var span := maxValue - minValue;
      var all := Offsets(span);
      var shuffled := Shuffle(all, draws.swap);
      var n := if span < MIN_VALUES then MIN_VALUES else span;
      n := if n > MAX_VALUES then MAX_VALUES else n;
      var count := 1 + Below(draws.count, n);
      assert count == CountFrom(span, draws.count);
      FrontOf(span, shuffled, count);
      values := shuffled[..count];
    }

    method Shuffle(s: seq<int>, swap: nat -> nat) returns (t: seq<int>)
      requires Distinct(s)
      ensures t == Shuffled(s, swap, |s|) && SameElements(s, t)
    {
      t := s;
      for i := |s| downto 0
        invariant SameElements(s, t) && Shuffled(t, swap, i) == Shuffled(s, swap, |s|)
      {
        var j := Below(swap(i), i + 1);
        SwapKeeps(t, i, j);
        t := t[i := t[j]][j := t[i]];
      }
    }

    /** Stick-breaking weights, which never sum to more than one. */
    method GenBiasedWeights(draws: Draws)
      modifies this`weights
      ensures weights == BrokenStick(draws.unit, |values|)
      ensures forall j :: 0 <= j < |weights| ==> 0.0 <= weights[j] <= 1.0
      ensures Sum(weights, |weights|) == 1.0 - LeftOver(draws.unit, |values|)
    {
      var w: seq<real> := [];
      var cumulative := 0.0;
      while |w| < |values|
        invariant |w| <= |values| && w == BrokenStick(draws.unit, |w|)
        invariant cumulative == Sum(w, |w|)
      {
        var x := Part(1.0 - cumulative, draws.unit(|w|));
        SumSnoc(w, x);
        assert BrokenStick(draws.unit, |w| + 1) == w + [x];
        w := w + [x];
        cumulative := cumulative + x;
      }
      StickIsWhole(draws.unit, |w|);
      weights := w;
    }

    /** Each weight is the next draw. */
    method GenUniformWeights(draws: Draws)
      modifies this`weights
      ensures weights == Drawn(draws.unit, |values|)
    {
      var w: seq<real> := [];
      while |w| < |values|
        invariant |w| <= |values| && w == Drawn(draws.unit, |w|)
      {
        w := w + [draws.unit(|w|)];
      }
      weights := w;
    }

    /** Roll a column, flip its coin, and return the chosen value. */
    method Sample(bits: nat, coin: real) returns (v: int)
      requires Valid() && 0.0 <= coin < 1.0
      ensures minValue <= v <= maxValue
      ensures v == minValue + values[Pick(prob, alias, bits % |values|, coin)]
    {
      var i := bits % |values|;
      assert values[i] in values && values[alias[i]] in values;
      if coin < prob[i] {
        v := minValue + values[i];
      } else {
        v := minValue + values[alias[i]];
      }
    }

    /**
     Build the tables. Whenever some weight is positive they reproduce the weights
     exactly: outcome `i` receives `n * w[i] / sum` of the `n` columns. When all
     weights are zero the scaled weights are not numbers, both queues stay empty and
     the tables stay zero.
     */
    method GenTables()
      requires forall j :: 0 <= j < |weights| ==> weights[j] >= 0.0
      modifies this`prob, this`alias
      ensures Exact(weights, prob, alias)
      ensures Sum(weights, |weights|) == 0.0 ==> forall j :: 0 <= j < |weights| ==> prob[j] == 0.0 && alias[j] == 0
    {
      prob, alias := BuildTables(weights);
    }
  }

  // ------------------------------------------------ the tables, column by column

  datatype Tables = Tables(prob: seq<real>, alias: seq<nat>)

  predicate Within(q: seq<nat>, n: nat) { forall i :: 0 <= i < |q| ==> q[i] < n }

  /** The columns below one, or the others, in ascending order. */
  function Columns(scaled: seq<real>, n: nat, below: bool): (q: seq<nat>)
    requires n <= |scaled|
    ensures Within(q, n)
  {
    if n == 0 then [] else Columns(scaled, n - 1, below) + if (scaled[n - 1] < 1.0) == below then [n - 1] else []
  }

  /** Give the columns left over to themselves. */
  function Filled(prob: seq<real>, large: seq<nat>, small: seq<nat>): (r: seq<real>)
    ensures |r| == |prob|
  {
    seq(|prob|, i requires 0 <= i < |prob| => if i in large || i in small then 1.0 else prob[i])
  }

  /** The main loop's state: scaled weights, both tables, both queues. */
  datatype Pairing = Pairing(scaled: seq<real>, prob: seq<real>, alias: seq<nat>, small: seq<nat>, large: seq<nat>)

  predicate InBounds(p: Pairing) {
    var n := |p.scaled|;
    |p.prob| == |p.alias| == n && Within(p.small, n) && Within(p.large, n)
  }

  /** First in, first out: pair the oldest small column with the oldest large one, which then queues up again. */
  function PairOne(p: Pairing): (q: Pairing)
    requires InBounds(p) && p.small != [] && p.large != []
    ensures InBounds(q) && |q.small| + |q.large| == |p.small| + |p.large| - 1
  {
    var l, g := p.small[0], p.large[0];
    var x := p.scaled[g] + p.scaled[l] - 1.0;
    Pairing(p.scaled[g := x], p.prob[l := p.scaled[l]], p.alias[l := g],
            Push(p.small[1..], g, x < 1.0), Push(p.large[1..], g, !(x < 1.0)))
  }

  function Paired(p: Pairing): Tables
    requires InBounds(p)
    decreases |p.small| + |p.large|
  {
    if p.small == [] || p.large == [] then Tables(Filled(p.prob, p.large, p.small), p.alias)
    else Paired(PairOne(p))
  }

  function PairedFrom(scaled: seq<real>): Tables {
    var n := |scaled|;
    Paired(Pairing(scaled, seq(n, _ => 0.0), seq(n, _ => 0), Columns(scaled, n, true), Columns(scaled, n, false)))
  }

  lemma FillOne(prob: seq<real>, large: seq<nat>, small: seq<nat>)
    requires Within(large, |prob|) && Within(small, |prob|)
    ensures large != [] ==> Filled(prob[large[0] := 1.0], large[1..], small) == Filled(prob, large, small)
    ensures small != [] ==> Filled(prob[small[0] := 1.0], large, small[1..]) == Filled(prob, large, small)
    ensures large == [] && small == [] ==> Filled(prob, large, small) == prob
  {
    assert large != [] ==> forall j :: j in large <==> j == large[0] || j in large[1..];
    assert small != [] ==> forall j :: j in small <==> j == small[0] || j in small[1..];
  }

  /** The order of the queues shows in the tables: weights 1, 4, 2, 1 scale to these four columns. */
  lemma FirstInFirstOut(scaled: seq<real>)
    requires scaled == [0.5, 2.0, 1.0, 0.5]
    ensures PairedFrom(scaled) == Tables([0.5, 1.0, 0.5, 0.5], [1, 0, 1, 2])
  {
    var p0 := Pairing(scaled, [0.0, 0.0, 0.0, 0.0], [0, 0, 0, 0], [0, 3], [1, 2]);
    ExampleQueues(scaled);
    Starts(p0);
    ExampleRounds(p0);
  }

  lemma Starts(p: Pairing)
    requires |p.prob| == |p.alias| == |p.scaled| && forall i :: 0 <= i < |p.scaled| ==> p.prob[i] == 0.0 && p.alias[i] == 0
    requires p.small == Columns(p.scaled, |p.scaled|, true) && p.large == Columns(p.scaled, |p.scaled|, false)
    ensures InBounds(p) && PairedFrom(p.scaled) == Paired(p)
  {
    assert p.prob == seq(|p.scaled|, _ => 0.0) && p.alias == seq(|p.scaled|, _ => 0);
  }

  lemma ExampleRounds(p0: Pairing)
    requires p0 == Pairing([0.5, 2.0, 1.0, 0.5], [0.0, 0.0, 0.0, 0.0], [0, 0, 0, 0], [0, 3], [1, 2])
    ensures Paired(p0) == Tables([0.5, 1.0, 0.5, 0.5], [1, 0, 1, 2])
  {
    var p1 := Pairing([0.5, 1.5, 1.0, 0.5], [0.5, 0.0, 0.0, 0.0], [1, 0, 0, 0], [3], [2, 1]);
    var p2 := Pairing([0.5, 1.5, 0.5, 0.5], [0.5, 0.0, 0.0, 0.5], [1, 0, 0, 2], [2], [1]);
    var p3 := Pairing([0.5, 1.0, 0.5, 0.5], [0.5, 0.0, 0.5, 0.5], [1, 0, 1, 2], [], [1]);
    FirstRound();
    SecondRound();
    LastRound();
    ThreeRounds(p0, p1, p2, p3);
    assert Filled([0.5, 0.0, 0.5, 0.5], [1], []) == [0.5, 1.0, 0.5, 0.5];
  }

  lemma ThreeRounds(p0: Pairing, p1: Pairing, p2: Pairing, p3: Pairing)
    requires InBounds(p0) && p0.small != [] && p0.large != [] && PairOne(p0) == p1
    requires p1.small != [] && p1.large != [] && PairOne(p1) == p2
    requires p2.small != [] && p2.large != [] && PairOne(p2) == p3 && p3.small == []
    ensures Paired(p0) == Tables(Filled(p3.prob, p3.large, []), p3.alias)
  {
    assert Paired(p2) == Paired(p3);
    assert Paired(p1) == Paired(p2);
  }

  lemma FirstRound()
    ensures PairOne(Pairing([0.5, 2.0, 1.0, 0.5], [0.0, 0.0, 0.0, 0.0], [0, 0, 0, 0], [0, 3], [1, 2]))
         == Pairing([0.5, 1.5, 1.0, 0.5], [0.5, 0.0, 0.0, 0.0], [1, 0, 0, 0], [3], [2, 1])
  {
    assert [0, 3][1..] == [3] && [1, 2][1..] + [1] == [2, 1];
    assert [0.5, 2.0, 1.0, 0.5][1 := 1.5] == [0.5, 1.5, 1.0, 0.5];
    assert [0.0, 0.0, 0.0, 0.0][0 := 0.5] == [0.5, 0.0, 0.0, 0.0] && [0, 0, 0, 0][0 := 1] == [1, 0, 0, 0];
  }

  lemma SecondRound()
    ensures PairOne(Pairing([0.5, 1.5, 1.0, 0.5], [0.5, 0.0, 0.0, 0.0], [1, 0, 0, 0], [3], [2, 1]))
         == Pairing([0.5, 1.5, 0.5, 0.5], [0.5, 0.0, 0.0, 0.5], [1, 0, 0, 2], [2], [1])
  {
    assert [3][1..] + [2] == [2] && [2, 1][1..] == [1];
    assert [0.5, 1.5, 1.0, 0.5][2 := 0.5] == [0.5, 1.5, 0.5, 0.5];
    assert [0.5, 0.0, 0.0, 0.0][3 := 0.5] == [0.5, 0.0, 0.0, 0.5] && [1, 0, 0, 0][3 := 2] == [1, 0, 0, 2];
  }

  lemma LastRound()
    ensures PairOne(Pairing([0.5, 1.5, 0.5, 0.5], [0.5, 0.0, 0.0, 0.5], [1, 0, 0, 2], [2], [1]))
         == Pairing([0.5, 1.0, 0.5, 0.5], [0.5, 0.0, 0.5, 0.5], [1, 0, 1, 2], [], [1])
  {
    assert [2][1..] == [] && [1][1..] + [1] == [1];
    assert [0.5, 1.5, 0.5, 0.5][1 := 1.0] == [0.5, 1.0, 0.5, 0.5];
    assert [0.5, 0.0, 0.0, 0.5][2 := 0.5] == [0.5, 0.0, 0.5, 0.5] && [1, 0, 0, 2][2 := 1] == [1, 0, 1, 2];
  }

  lemma ExampleQueues(scaled: seq<real>)
    requires scaled == [0.5, 2.0, 1.0, 0.5]
    ensures Columns(scaled, 4, true) == [0, 3] && Columns(scaled, 4, false) == [1, 2]
  {
    assert Columns(scaled, 1, true) == [0] && Columns(scaled, 1, false) == [];
    assert Columns(scaled, 2, true) == [0] && Columns(scaled, 2, false) == [1];
    assert Columns(scaled, 3, true) == [0] && Columns(scaled, 3, false) == [1, 2];
  }

  method BuildTables(w: seq<real>) returns (prob: seq<real>, alias: seq<nat>)
    requires forall j :: 0 <= j < |w| ==> w[j] >= 0.0
    ensures Exact(w, prob, alias)
    ensures Sum(w, |w|) == 0.0 ==> forall j :: 0 <= j < |w| ==> prob[j] == 0.0 && alias[j] == 0
    ensures Sum(w, |w|) > 0.0 ==> Tables(prob, alias) == PairedFrom(Scaled(w))
  {
    var sum := Total(w);
    var p := new real[|w|](_ => 0.0);
    var al := new nat[|w|](_ => 0);
    if sum > 0.0 {
      var scaled := ScaleWeights(w, sum);
      Fill(scaled, p, al);
    }
    prob, alias := p[..], al[..];
  }

  /** The index a roll of the columns and a coin in [0, 1) select. */
  function Pick(prob: seq<real>, alias: seq<nat>, roll: nat, coin: real): (i: nat)
    requires roll < |prob| == |alias|
  {
    if coin < prob[roll] then roll else alias[roll]
  }

  /** The coins that select outcome `i` on column `j` form an interval as long as the column's share. */
  lemma PickFollowsShare(prob: seq<real>, alias: seq<nat>, j: nat, i: nat, coin: real)
    requires j < |prob| == |alias| && 0.0 <= prob[j] <= 1.0 && 0.0 <= coin < 1.0
    ensures var lo := if j == i then 0.0 else prob[j];
            var hi := if alias[j] == i then 1.0 else prob[j];
            hi - lo == Share(prob[j], alias[j], j, i) && (Pick(prob, alias, j, coin) == i <==> lo <= coin < hi)
  {
  }

  lemma SumSnoc(w: seq<real>, x: real)
    ensures Sum(w + [x], |w| + 1) == Sum(w, |w|) + x
  {
    SumPrefix(w, [x], |w|);
  }

  lemma {:induction false} SumPrefix(w: seq<real>, more: seq<real>, k: nat)
    requires k <= |w|
    ensures Sum(w + more, k) == Sum(w, k)
  {
    if k != 0 {
      SumPrefix(w, more, k - 1);
    }
  }

  method Total(w: seq<real>) returns (sum: real)
    requires forall j :: 0 <= j < |w| ==> w[j] >= 0.0
    ensures sum == Sum(w, |w|) && sum >= 0.0
  {
    sum := 0.0;
    for i := 0 to |w|
      invariant sum == Sum(w, i) && sum >= 0.0
    {
      sum := sum + w[i];
    }
  }

  function Scaled(w: seq<real>): seq<real>
    requires Sum(w, |w|) > 0.0 && forall j :: 0 <= j < |w| ==> w[j] >= 0.0
  {
    seq(|w|, j requires 0 <= j < |w| => ScaleOne(w[j], |w| as real, Sum(w, |w|)))
  }

  /** Scale the weights so that they average one. */
  method ScaleWeights(w: seq<real>, sum: real) returns (scaled: seq<real>)
    requires sum == Sum(w, |w|) > 0.0
    requires forall j :: 0 <= j < |w| ==> w[j] >= 0.0
    ensures |scaled| == |w|
    ensures forall j :: 0 <= j < |w| ==> scaled[j] == w[j] * |w| as real / sum && scaled[j] >= 0.0
    ensures scaled == Scaled(w)
    ensures Excess(scaled, seq(|w|, _ => false), |w|) == 0.0
  {
    scaled := [];
    while |scaled| < |w|
      invariant |scaled| <= |w|
      invariant forall j :: 0 <= j < |scaled| ==> scaled[j] == ScaleOne(w[j], |w| as real, sum)
    {
      var x := ScaleOne(w[|scaled|], |w| as real, sum);
      scaled := scaled + [x];
    }
    ScaledAverageOne(w, scaled, seq(|w|, _ => false), sum);
  }

  lemma ScaledAverageOne(w: seq<real>, scaled: seq<real>, done: seq<bool>, sum: real)
    requires |w| == |scaled| == |done| && sum == Sum(w, |w|) > 0.0
    requires forall j :: 0 <= j < |w| ==> scaled[j] == w[j] * |w| as real / sum && !done[j]
    ensures Excess(scaled, done, |w|) == 0.0
  {
    InitialExcess(w, scaled, done, sum, |w|);
    ZeroFactor(Excess(scaled, done, |w|), sum, |w| as real);
  }

  lemma ZeroFactor(e: real, sum: real, n: real)
    requires e * sum == sum * n - n * sum && sum > 0.0
    ensures e == 0.0
  {
  }

  function ScaleOne(w: real, n: real, sum: real): (x: real)
    requires w >= 0.0 && n >= 0.0 && sum > 0.0
    ensures x >= 0.0
  {
    w * n / sum
  }

  /** Sort the columns into those below one and the rest. */
  method SortColumns(scaled: seq<real>) returns (small: seq<nat>, large: seq<nat>)
    ensures QueuesCover(seq(|scaled|, _ => false), small, large)
    ensures small == Columns(scaled, |scaled|, true) && large == Columns(scaled, |scaled|, false)
    ensures forall j :: j in small ==> scaled[j] < 1.0
    ensures forall j :: j in large ==> scaled[j] >= 1.0
  {
    small, large := [], [];
    for i := 0 to |scaled|
      invariant small == Columns(scaled, i, true) && large == Columns(scaled, i, false)
    {
      if scaled[i] < 1.0 {
        small := small + [i];
      } else {
        large := large + [i];
      }
    }
    ColumnsCover(scaled, small, large, seq(|scaled|, _ => false));
  }

  lemma ColumnsCover(scaled: seq<real>, small: seq<nat>, large: seq<nat>, done: seq<bool>)
    requires small == Columns(scaled, |scaled|, true) && large == Columns(scaled, |scaled|, false)
    requires |done| == |scaled| && forall j :: 0 <= j < |done| ==> !done[j]
    ensures QueuesCover(done, small, large)
    ensures (forall j :: j in small ==> scaled[j] < 1.0) && (forall j :: j in large ==> scaled[j] >= 1.0)
  {
    ColumnsSorted(scaled, |scaled|, true);
    ColumnsSorted(scaled, |scaled|, false);
  }

  lemma {:induction false} ColumnsSorted(scaled: seq<real>, n: nat, below: bool)
    requires n <= |scaled|
    ensures Distinct(Columns(scaled, n, below))
    ensures forall j :: j in Columns(scaled, n, below) <==> 0 <= j < n && (scaled[j] < 1.0) == below
  {
    if n > 0 {
      ColumnsSorted(scaled, n - 1, below);
    }
  }

  function Push(q: seq<nat>, x: nat, here: bool): seq<nat> {
    if here then q + [x] else q
  }

  /** Settling the first small column and moving the first large one keeps the queues exact. */
  lemma QueuesStep(done: seq<bool>, small: seq<nat>, large: seq<nat>, toSmall: bool)
    requires QueuesCover(done, small, large) && small != [] && large != []
    ensures small[0] < |done| && large[0] < |done| && small[0] != large[0] && !done[small[0]] && !done[large[0]]
    ensures QueuesCover(done[small[0] := true], Push(small[1..], large[0], toSmall), Push(large[1..], large[0], !toSmall))
  {
    var l, g := small[0], large[0];
    assert l in small && g in large;
    assert l !in small[1..] && g !in large[1..];
    assert forall j :: j in small <==> j == l || j in small[1..];
    assert forall j :: j in large <==> j == g || j in large[1..];
  }

  lemma QueuesWithin(done: seq<bool>, small: seq<nat>, large: seq<nat>)
    requires QueuesCover(done, small, large)
    ensures Within(small, |done|) && Within(large, |done|)
  {
    assert forall i :: 0 <= i < |small| ==> small[i] in small;
    assert forall i :: 0 <= i < |large| ==> large[i] in large;
  }

  lemma QueuesPop(done: seq<bool>, small: seq<nat>, large: seq<nat>)
    requires QueuesCover(done, small, large)
    ensures large != [] ==> large[0] < |done| && !done[large[0]] && QueuesCover(done[large[0] := true], small, large[1..])
    ensures small != [] ==> small[0] < |done| && !done[small[0]] && QueuesCover(done[small[0] := true], small[1..], large)
  {
    if large != [] {
      assert large[0] in large && large[0] !in large[1..];
      assert forall j :: j in large <==> j == large[0] || j in large[1..];
    }
    if small != [] {
      assert small[0] in small && small[0] !in small[1..];
      assert forall j :: j in small <==> j == small[0] || j in small[1..];
    }
  }

  /** Queue membership agrees with which side of one the column is on. */
  predicate Sorted(scaled: seq<real>, small: seq<nat>, large: seq<nat>) {
    && (forall j :: j in small ==> j < |scaled| && 0.0 <= scaled[j] < 1.0)
    && (forall j :: j in large ==> j < |scaled| && scaled[j] >= 1.0)
  }

  lemma SortedStep(scaled: seq<real>, small: seq<nat>, large: seq<nat>, g: nat, x: real)
    requires Sorted(scaled, small, large) && g < |scaled| && g !in small && g !in large && x >= 0.0
    ensures Sorted(scaled[g := x], Push(small, g, x < 1.0), Push(large, g, !(x < 1.0)))
  {
  }

  ghost predicate LoopInv(orig: seq<real>, scaled: seq<real>, prob: seq<real>, alias: seq<nat>, done: seq<bool>,
                          small: seq<nat>, large: seq<nat>)
  {
    && TablesInv(orig, scaled, prob, alias, done)
    && QueuesCover(done, small, large) && Sorted(scaled, small, large)
    && Excess(scaled, done, |done|) == 0.0
  }

  /** One round of the main loop: settle the first small column with the first large one as its alias. */
  lemma RoundKeeps(orig: seq<real>, scaled: seq<real>, prob: seq<real>, alias: seq<nat>, done: seq<bool>,
                   small: seq<nat>, large: seq<nat>)
    requires LoopInv(orig, scaled, prob, alias, done, small, large) && small != [] && large != []
    ensures small[0] in small && large[0] in large
    ensures var l, g := small[0], large[0];
            var x := scaled[g] + scaled[l] - 1.0;
            LoopInv(orig, scaled[g := x], prob[l := scaled[l]], alias[l := g], done[l := true],
                    Push(small[1..], g, x < 1.0), Push(large[1..], g, !(x < 1.0)))
  {
    var l, g := small[0], large[0];
    assert l in small && g in large;
    var x := scaled[g] + scaled[l] - 1.0;
    QueuesStep(done, small, large, x < 1.0);
    assert Sorted(scaled[g := x], Push(small[1..], g, x < 1.0), Push(large[1..], g, !(x < 1.0))) by {
      assert g !in small[1..] && g !in large[1..];
      assert forall j :: j in small[1..] ==> j in small;
      assert forall j :: j in large[1..] ==> j in large;
      SortedStep(scaled, small[1..], large[1..], g, x);
    }
    assert TablesInv(orig, scaled[g := x], prob[l := scaled[l]], alias[l := g], done[l := true]) by {
      StepKeepsTables(orig, scaled, prob, alias, done, l, g);
    }
    assert Excess(scaled[g := x], done[l := true], |done|) == 0.0 by {
      ExcessAfterStep(scaled, done, |done|, l, g, x);
    }
  }

  /** One round in place: the first small column is settled with the first large one as its alias. */
  method Round(ghost orig: seq<real>, scaled: array<real>, prob: array<real>, alias: array<nat>, ghost done: seq<bool>,
               small: seq<nat>, large: seq<nat>) returns (small': seq<nat>, large': seq<nat>, ghost done': seq<bool>)
    requires LoopInv(orig, scaled[..], prob[..], alias[..], done, small, large) && small != [] && large != []
    requires InBounds(Pairing(scaled[..], prob[..], alias[..], small, large)) && scaled != prob
    modifies scaled, prob, alias
    ensures LoopInv(orig, scaled[..], prob[..], alias[..], done', small', large') && |done'| == |done|
    ensures Pairing(scaled[..], prob[..], alias[..], small', large') == PairOne(old(Pairing(scaled[..], prob[..], alias[..], small, large)))
  {
    var l, g := small[0], large[0];
    ghost var s0, p0, a0 := scaled[..], prob[..], alias[..];
    assert l in small && g in large;
    var pl, x := scaled[l], scaled[g] + scaled[l] - 1.0;
    assert pl == s0[l] && x == s0[g] + s0[l] - 1.0;
    Store(prob, l, pl);
    Store(alias, l, g);
    Store(scaled, g, x);
    done' := done[l := true];
    small', large' := Push(small[1..], g, x < 1.0), Push(large[1..], g, !(x < 1.0));
    RoundKeeps(orig, s0, p0, a0, done, small, large);
  }

  method Store<T>(a: array<T>, i: nat, v: T)
    requires i < a.Length
    modifies a
    ensures a[..] == old(a[..])[i := v]
  {
    a[i] := v;
  }

  /** Sort the columns into the queues and pair them off. */
  method Fill(orig: seq<real>, prob: array<real>, alias: array<nat>)
    requires forall j :: 0 <= j < |orig| ==> orig[j] >= 0.0
    requires Excess(orig, seq(|orig|, _ => false), |orig|) == 0.0
    requires prob.Length == alias.Length == |orig|
    requires forall j :: 0 <= j < |orig| ==> prob[j] == 0.0 && alias[j] == 0
    modifies prob, alias
    ensures forall j :: 0 <= j < |orig| ==> 0.0 <= prob[j] <= 1.0 && alias[j] < |orig|
    ensures forall i :: 0 <= i < |orig| ==> Mass(prob[..], alias[..], i, |orig|) == orig[i]
    ensures Tables(prob[..], alias[..]) == PairedFrom(orig)
  {
    var n := |orig|;
    var scaled := new real[n](i requires 0 <= i < n => orig[i]);
    var small: seq<nat>, large: seq<nat> := SortColumns(orig);
    ghost var done := seq(n, _ => false);
    assert scaled[..] == orig;
    InitialTables(orig, prob[..], alias[..], done);
    assert prob[..] == seq(n, _ => 0.0) && alias[..] == seq(n, _ => 0);
    QueuesWithin(done, small, large);
    PairAll(orig, scaled, prob, alias, done, small, large);
  }

  /** The three loops: pair until a queue runs empty, then give the columns left to themselves. */
  method PairAll(ghost orig: seq<real>, scaled: array<real>, prob: array<real>, alias: array<nat>, ghost done0: seq<bool>,
                 small0: seq<nat>, large0: seq<nat>)
    requires LoopInv(orig, scaled[..], prob[..], alias[..], done0, small0, large0) && scaled != prob
    requires InBounds(Pairing(scaled[..], prob[..], alias[..], small0, large0))
    modifies scaled, prob, alias
    ensures prob.Length == alias.Length == |orig|
    ensures forall j :: 0 <= j < |orig| ==> 0.0 <= prob[j] <= 1.0 && alias[j] < |orig|
    ensures forall i :: 0 <= i < |orig| ==> Mass(prob[..], alias[..], i, |orig|) == orig[i]
    ensures Tables(prob[..], alias[..]) == old(Paired(Pairing(scaled[..], prob[..], alias[..], small0, large0)))
  {
    var small, large := small0, large0;
    ghost var done := done0;
    while small != [] && large != []
      invariant |done| == |done0| && LoopInv(orig, scaled[..], prob[..], alias[..], done, small, large)
      invariant InBounds(Pairing(scaled[..], prob[..], alias[..], small, large))
      invariant Paired(Pairing(scaled[..], prob[..], alias[..], small, large))
             == old(Paired(Pairing(scaled[..], prob[..], alias[..], small0, large0)))
      decreases |small| + |large|
    {
      small, large, done := Round(orig, scaled, prob, alias, done, small, large);
    }
    LeftoversAreOnes(scaled[..], done, small, large);
    done := Finish(scaled, orig, done, large, small, prob, alias);
    forall i | 0 <= i < |orig|
      ensures Mass(prob[..], alias[..], i, |orig|) == orig[i]
    {
      SettledIsMass(prob[..], alias[..], done, i, |orig|);
    }
  }

  lemma InitialTables(orig: seq<real>, prob: seq<real>, alias: seq<nat>, done: seq<bool>)
    requires |orig| == |prob| == |alias| == |done|
    requires forall j :: 0 <= j < |orig| ==> prob[j] == 0.0 && alias[j] == 0 && !done[j]
    ensures TablesInv(orig, orig, prob, alias, done)
  {
    forall i | 0 <= i < |orig|
      ensures Settled(prob, alias, done, i, |orig|) == 0.0
    {
      NothingSettled(prob, alias, done, i, |orig|);
    }
  }

  /** When one queue runs empty, every column left holds exactly one. */
  lemma LeftoversAreOnes(scaled: seq<real>, done: seq<bool>, small: seq<nat>, large: seq<nat>)
    requires |scaled| == |done| && QueuesCover(done, small, large)
    requires small == [] || large == []
    requires forall j :: j in small ==> scaled[j] < 1.0
    requires forall j :: j in large ==> scaled[j] >= 1.0
    requires Excess(scaled, done, |done|) == 0.0
    ensures small == []
    ensures forall j :: j in large ==> scaled[j] == 1.0
  {
    if large == [] {
      assert small != [] ==> small[0] in small;
      AllSmall(scaled, done, |done|);
    } else {
      AllLarge(scaled, done, |done|);
    }
  }

  /** Empty both queues, giving the columns left over to themselves. */
  method Finish(scaled: array<real>, ghost orig: seq<real>, ghost done0: seq<bool>, large0: seq<nat>, small0: seq<nat>,
                prob: array<real>, alias: array<nat>) returns (ghost done: seq<bool>)
    requires prob != scaled
    requires TablesInv(orig, scaled[..], prob[..], alias[..], done0)
    requires QueuesCover(done0, small0, large0)
    requires forall j :: j in small0 || j in large0 ==> scaled[j] == 1.0
    modifies prob
    ensures TablesInv(orig, scaled[..], prob[..], alias[..], done)
    ensures forall j :: 0 <= j < |done| ==> done[j]
    ensures prob[..] == Filled(old(prob[..]), large0, small0)
  {
    var large, small := large0, small0;
    done := done0;
    QueuesWithin(done, small, large);
    while large != []
      invariant |done| == |done0|
      invariant TablesInv(orig, scaled[..], prob[..], alias[..], done)
      invariant QueuesCover(done, small, large) && Within(small, |done|) && Within(large, |done|)
      invariant forall j :: j in small || j in large ==> scaled[j] == 1.0
      invariant Filled(prob[..], large, small) == Filled(old(prob[..]), large0, small0)
      decreases |large|
    {
      var g := large[0];
      assert g in large;
      QueuesPop(done, small, large);
      FillOne(prob[..], large, small);
      large := large[1..];
      ghost var before := prob[..];
      LeftoverKeepsTables(orig, scaled[..], before, alias[..], done, g);
      Store(prob, g, 1.0);
      done := done[g := true];
    }
    while small != []
      invariant |done| == |done0|
      invariant TablesInv(orig, scaled[..], prob[..], alias[..], done)
      invariant QueuesCover(done, small, large) && Within(small, |done|) && large == []
      invariant forall j :: j in small ==> scaled[j] == 1.0
      invariant Filled(prob[..], large, small) == Filled(old(prob[..]), large0, small0)
      decreases |small|
    {
      var l := small[0];
      assert l in small;
      QueuesPop(done, small, large);
      FillOne(prob[..], large, small);
      small := small[1..];
      ghost var before := prob[..];
      LeftoverKeepsTables(orig, scaled[..], before, alias[..], done, l);
      Store(prob, l, 1.0);
      done := done[l := true];
    }
    FillOne(prob[..], large, small);
  }
}
