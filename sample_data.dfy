/**
 * `create_sample_data`: test tables used when no KOSIS download is present.
 * For every year of `range(2015, 2025)` and every category (an age band, or
 * a job) one record is appended, in year-major order, whose count is the
 * next result of `np.random.randint(low, high)`. The generator itself is not
 * modelled: its results arrive as the sequence `draws`, in call order.
 */
module SampleData {
  import AgeGroup
  import opened Wrappers

  /** One appended dictionary: the year, the category (age band for the
      population table, job for the employment table) and the count. */
  datatype Record = Record(year: int, category: string, count: int)

  /** Python's `range(start, stop)` with step 1: the integers from `start`
      up to but excluding `stop`, in increasing order. */
  function Range(start: int, stop: int): (r: seq<int>)
    ensures |r| == if start < stop then stop - start else 0
    ensures forall x :: x in r <==> start <= x < stop
    ensures forall a, b :: 0 <= a < b < |r| ==> r[a] < r[b]
    decreases stop - start
  {
    if start < stop then
      var rest := Range(start + 1, stop);
      var r := [start] + rest;
      assert forall b :: 0 < b < |r| ==> r[b] == rest[b - 1] && rest[b - 1] in rest;
      r
    else []
  }

  /** `range(2015, 2025)`: ten distinct years, 2015 to 2024. */
  function Years(): (y: seq<int>)
    ensures |y| == 10 && Distinct(y)
    ensures forall x :: x in y <==> 2015 <= x <= 2024
  {
    Range(2015, 2025)
  }

  /** The four age bands of the population table, all different. */
  function AgeBands(): (b: seq<string>)
    ensures |b| == 4 && Distinct(b)
  {
    ["15-19", "20-24", "25-29", "30-34"]
  }

  /** The three jobs of the employment table, all different. */
  function Jobs(): (j: seq<string>)
    ensures |j| == 3 && Distinct(j)
  {
    ["소프트웨어개발자", "데이터분석가", "정보보안전문가"]
  }

  /** The half-open bounds of the two `randint` calls. */
  const PopulationLow := 2000000
  const PopulationHigh := 3500000
  const EmploymentLow := 50000
  const EmploymentHigh := 200000

  /** The records one year contributes: one per category, in category order. */
  function Row(year: int, cats: seq<string>, values: seq<int>): (r: seq<Record>)
    requires |values| == |cats|
    ensures |r| == |cats|
    ensures forall j :: 0 <= j < |r| ==> r[j].year == year
  {
    seq(|cats|, j requires 0 <= j < |cats| => Record(year, cats[j], values[j]))
  }

  /** The table the nested loops build: the rows of all years, one after the
      other, each year taking the next `|cats|` values. */
  function Grid(years: seq<int>, cats: seq<string>, values: seq<int>): (g: seq<Record>)
    requires |values| == |years| * |cats|
    ensures |g| == |values|
  {
    if years == [] then []
    else
      var m, last := |years| - 1, |values| - |cats|;
      assert last == m * |cats|;
      Grid(years[..m], cats, values[..last]) + Row(years[m], cats, values[last..])
  }

  predicate Distinct<T(==)>(s: seq<T>) {
    forall a, b :: 0 <= a < b < |s| ==> s[a] != s[b]
  }

  /** No two records share a (year, category) key. */
  predicate KeysUnique(rs: seq<Record>) {
    forall a, b :: 0 <= a < b < |rs| ==>
      rs[a].year != rs[b].year || rs[a].category != rs[b].category
  }

  /** An index below `m * n` lies in one of the first `m` rows of width `n`. */
  lemma {:induction false} QuotientBound(k: nat, n: nat, m: nat)
    requires k < m * n
    ensures n > 0 && k / n < m
    ensures k == (k / n) * n + k % n && k % n < n
  {
    assert n > 0;
    var q := k / n;
    if q >= m {
      MulLeft(m, q, n);
    }
  }

  lemma {:induction false} MulLeft(a: nat, b: nat, n: nat)
    requires a <= b
    ensures a * n <= b * n
  {
    assert b * n == a * n + (b - a) * n;
  }

  lemma {:induction false} SameDivMod(a: nat, b: nat, n: nat)
    requires n > 0 && a / n == b / n && a % n == b % n
    ensures a == b
  {
  }

  lemma {:induction false} RowBound(i: nat, m: nat, n: nat)
    requires i < m
    ensures i * n + n <= m * n
  {
    MulSucc(i, n);
  }

  lemma {:induction false} MulSucc(i: int, n: int)
    ensures (i + 1) * n == i * n + n
  {
  }

  /** Appending one category to a row whose values start at `base`. */
  lemma {:induction false} RowSnoc(year: int, cats: seq<string>, values: seq<int>, base: nat, j: nat)
    requires j < |cats| && base + j < |values|
    ensures Row(year, cats[..j + 1], values[base..base + j + 1])
         == Row(year, cats[..j], values[base..base + j]) + [Record(year, cats[j], values[base + j])]
  {
  }

  /** Appending one year's row to the table; `base` is the number of values
      the first `i` years take. */
  lemma {:induction false} GridSnoc(years: seq<int>, cats: seq<string>, values: seq<int>, i: nat, base: nat)
    requires |values| == |years| * |cats| && i < |years|
    requires base == i * |cats|
    ensures base + |cats| == (i + 1) * |cats| <= |values|
    ensures Grid(years[..i + 1], cats, values[..base + |cats|])
         == Grid(years[..i], cats, values[..base]) + Row(years[i], cats, values[base..base + |cats|])
  {
    var n := |cats|;
    RowBound(i, |years|, n);
    MulSucc(i, n);
    var ys, vs := years[..i + 1], values[..base + n];
    assert |vs| - n == base;
    assert ys[..i] == years[..i];
    assert vs[..base] == values[..base];
    assert vs[base..] == values[base..base + n];
  }

  /** Record `k` of the table pairs year `k / |cats|` with category
      `k % |cats|`, and carries the `k`-th value. */
  lemma {:induction false} GridAt(years: seq<int>, cats: seq<string>, values: seq<int>, k: nat)
    requires |values| == |years| * |cats|
    requires k < |values|
    ensures k / |cats| < |years|
    ensures Grid(years, cats, values)[k] == Record(years[k / |cats|], cats[k % |cats|], values[k])
  {
    var n := |cats|;
    QuotientBound(k, n, |years|);
    var q, r := k / n, k % n;
    GridCovers(years, cats, values, q, r);
  }

  /** A record before the last row is the record of the shorter table. */
  lemma {:induction false} GridAtFront(years: seq<int>, cats: seq<string>, values: seq<int>, k: nat)
    requires |values| == |years| * |cats| && years != []
    requires |values| - |cats| == (|years| - 1) * |cats|
    requires k < |values| - |cats|
    ensures Grid(years, cats, values)[k]
         == Grid(years[..|years| - 1], cats, values[..|values| - |cats|])[k]
  {
  }

  /** A record of the last row pairs the last year with category
      `k - (|values| - |cats|)`. */
  lemma {:induction false} GridAtLast(years: seq<int>, cats: seq<string>, values: seq<int>, k: nat)
    requires |values| == |years| * |cats| && years != []
    requires |values| - |cats| <= k < |values|
    ensures Grid(years, cats, values)[k]
         == Record(years[|years| - 1], cats[k - (|values| - |cats|)], values[k])
  {
  }

  /** Every (year, category) pair of the cross product is present, at index
      `i * |cats| + j`. */
  lemma {:induction false} GridCovers(years: seq<int>, cats: seq<string>, values: seq<int>, i: nat, j: nat)
    requires |values| == |years| * |cats|
    requires i < |years| && j < |cats|
    ensures i * |cats| + j < |Grid(years, cats, values)|
    ensures Grid(years, cats, values)[i * |cats| + j] == Record(years[i], cats[j], values[i * |cats| + j])
  {
    var n, m, last := |cats|, |years| - 1, |values| - |cats|;
    assert last == m * n;
    RowBound(i, |years|, n);
    var k := i * n + j;
    if i < m {
      RowBound(i, m, n);
      var ys, vs := years[..m], values[..last];
      GridCovers(ys, cats, vs, i, j);
      GridAtFront(years, cats, values, k);
      assert ys[i] == years[i] && vs[k] == values[k];
    } else {
      assert i * n == last;
      GridAtLast(years, cats, values, k);
    }
  }

  /** Distinct years and distinct categories give distinct keys. */
  lemma {:induction false} GridKeysUnique(years: seq<int>, cats: seq<string>, values: seq<int>)
    requires |values| == |years| * |cats|
    requires Distinct(years) && Distinct(cats)
    ensures KeysUnique(Grid(years, cats, values))
  {
    var g := Grid(years, cats, values);
    forall a, b | 0 <= a < b < |g|
      ensures g[a].year != g[b].year || g[a].category != g[b].category
    {
      GridKeysDiffer(years, cats, values, a, b);
    }
  }

  lemma {:induction false} GridKeysDiffer(years: seq<int>, cats: seq<string>, values: seq<int>, a: nat, b: nat)
    requires |values| == |years| * |cats|
    requires Distinct(years) && Distinct(cats)
    requires a < b < |values|
    ensures Grid(years, cats, values)[a].year != Grid(years, cats, values)[b].year
         || Grid(years, cats, values)[a].category != Grid(years, cats, values)[b].category
  {
    var n := |cats|;
    GridAt(years, cats, values, a);
    GridAt(years, cats, values, b);
    var ya, yb, ca, cb := a / n, b / n, a % n, b % n;
    if ya == yb && ca == cb {
      SameDivMod(a, b, n);
    }
  }

  /** Every count of the table is one of the values, in the same place. */
  lemma {:induction false} GridValues(years: seq<int>, cats: seq<string>, values: seq<int>, low: int, high: int)
    requires |values| == |years| * |cats|
    requires forall k :: 0 <= k < |values| ==> low <= values[k] < high
    ensures forall k :: 0 <= k < |values| ==> low <= Grid(years, cats, values)[k].count < high
  {
    forall k | 0 <= k < |values|
      ensures low <= Grid(years, cats, values)[k].count < high
    {
      GridAt(years, cats, values, k);
    }
  }

  /** One pair of nested loops of `create_sample_data`: for each year, for
      each category, append a record carrying the next draw. */
  method BuildGrid(years: seq<int>, cats: seq<string>, draws: seq<int>) returns (records: seq<Record>)
    requires |draws| == |years| * |cats|
    ensures records == Grid(years, cats, draws)
  {
    var n := |cats|;
    records := [];
    var next := 0;
    var i := 0;
    while i < |years|
      invariant 0 <= i <= |years|
      invariant next == i * n
      invariant records == Grid(years[..i], cats, draws[..next])
    {
      var base := next;
      GridSnoc(years, cats, draws, i, base);
      var j := 0;
      while j < n
        invariant 0 <= j <= n
        invariant next == base + j
        invariant records == Grid(years[..i], cats, draws[..base]) + Row(years[i], cats[..j], draws[base..next])
      {
        RowSnoc(years[i], cats, draws, base, j);
        records := records + [Record(years[i], cats[j], draws[next])];
        next := next + 1;
        j := j + 1;
      }
      assert cats[..n] == cats;
      assert next == (i + 1) * n;
      i := i + 1;
    }
    assert years[..i] == years;
    assert draws[..next] == draws;
  }

  /** One table of `create_sample_data`: built by the nested loops, keyed
      uniquely by (year, category), every count within the `randint` bounds. */
  method SampleTable(years: seq<int>, cats: seq<string>, draws: seq<int>, low: int, high: int)
    returns (records: seq<Record>)
    requires |draws| == |years| * |cats|
    requires Distinct(years) && Distinct(cats)
    requires forall k :: 0 <= k < |draws| ==> low <= draws[k] < high
    ensures records == Grid(years, cats, draws)
    ensures |records| == |years| * |cats|
    ensures KeysUnique(records)
    ensures forall k :: 0 <= k < |records| ==> low <= records[k].count < high
  {
    records := BuildGrid(years, cats, draws);
    GridKeysUnique(years, cats, draws);
    GridValues(years, cats, draws, low, high);
  }

  /** The two tables of `create_sample_data`. The first 40 draws are the
      population `randint` calls, the next 30 the employment ones. */
  method CreateSampleData(draws: seq<int>) returns (population: seq<Record>, employment: seq<Record>)
    requires |draws| == |Years()| * |AgeBands()| + |Years()| * |Jobs()|
    requires forall k :: 0 <= k < 40 ==> PopulationLow <= draws[k] < PopulationHigh
    requires forall k :: 40 <= k < 70 ==> EmploymentLow <= draws[k] < EmploymentHigh
    ensures population == Grid(Years(), AgeBands(), draws[..40])
    ensures employment == Grid(Years(), Jobs(), draws[40..])
    ensures |population| == 40 && |employment| == 30
    ensures KeysUnique(population) && KeysUnique(employment)
    ensures forall k :: 0 <= k < 40 ==> PopulationLow <= population[k].count < PopulationHigh
    ensures forall k :: 0 <= k < 30 ==> EmploymentLow <= employment[k].count < EmploymentHigh
  {
    var years := Years();
    population := SampleTable(years, AgeBands(), draws[..40], PopulationLow, PopulationHigh);
    employment := SampleTable(years, Jobs(), draws[40..], EmploymentLow, EmploymentHigh);
  }

  /** Each sample age band starts with two digits and a separator; its
      two-digit prefix is `15 + 5 * k`. */
  lemma AgeBandDigits(k: nat)
    requires k < |AgeBands()|
    ensures |AgeBands()[k]| >= 3 && !AgeGroup.IsDigit(AgeBands()[k][2])
    ensures AgeGroup.IsDigit(AgeBands()[k][0]) && AgeGroup.IsDigit(AgeBands()[k][1])
    ensures 10 * AgeGroup.DigitValue(AgeBands()[k][0]) + AgeGroup.DigitValue(AgeBands()[k][1]) == 15 + 5 * k
  {
    var band := AgeBands()[k];
    if k == 0 {
      assert band == "15-19";
    } else if k == 1 {
      assert band == "20-24";
    } else if k == 2 {
      assert band == "25-29";
    } else {
      assert band == "30-34";
    }
  }

  /** The sample age bands read back, through `convert_age_group`, as the
      lower bounds 15, 20, 25 and 30. */
  lemma AgeBandLowerBounds(k: nat)
    requires k < |AgeBands()|
    ensures AgeGroup.ConvertAgeGroup(AgeGroup.Text(AgeBands()[k])) == Some(15 + 5 * k)
  {
    AgeBandDigits(k);
    AgeGroup.BandLowerBound(AgeBands()[k]);
  }
}
