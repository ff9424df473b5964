/** The aggregation in `calculate_statistics` (finance_manager.py lines
    136-210): each month's summary and statistics worksheets are read and
    reduced into yearly totals, per-month series, the per-month most
    expensive items and the category sums; then the totals and six rankings
    are written into the year-summary worksheet. */
module Statistics {
  import opened Wrappers
  import Text
  import Currency
  import Decimal
  import opened OrderedDict
  import opened Sorting
  import opened Worksheet
  import Ranking

  /** The entries of the configuration the aggregation uses: the currency
      suffix, the addresses it reads in the month worksheets, and the
      addresses it writes in the year-summary worksheet. */
  datatype Params = Params(
    currencySuffix: string,
    actualIncome: string,
    actualExpenses: string,
    mostExpensiveItemValue: string,
    mostExpensiveItemDescription: string,
    mostExpensiveCategoryValue: string,
    mostExpensiveCategoryDescription: string,
    moneyEarned: string,
    moneySpent: string,
    moneySaved: string,
    top1MostEarned: string,
    top1MostSpent: string,
    top1MostSaved: string,
    top1LeastSpent: string,
    mostExpensiveItem: string,
    mostExpensiveCategory: string)

  /** What the source needs of its configuration: `split` refuses an empty
      suffix and each ranking anchor must be a column and a row. */
  predicate ValidParams(p: Params) {
    && |p.currencySuffix| > 0
    && Ranking.ValidAnchor(p.top1MostEarned)
    && Ranking.ValidAnchor(p.top1MostSpent)
    && Ranking.ValidAnchor(p.top1MostSaved)
    && Ranking.ValidAnchor(p.top1LeastSpent)
    && Ranking.ValidAnchor(p.mostExpensiveItem)
    && Ranking.ValidAnchor(p.mostExpensiveCategory)
  }

  /** A month worksheet as the displayed text of its cells. */
  type Tab = map<string, string>

  /** `worksheet.get_value(address)`: an empty cell reads as ''. */
  function CellText(tab: Tab, address: string): string {
    if address in tab then tab[address] else ""
  }

  /** One month spreadsheet: its title and its worksheets in configured
      order; the first is the summary, the third the statistics. */
  datatype Month = Month(title: string, tabs: seq<Tab>)

  /** What the loop body indexes without a check: a second space-separated
      token of the title and a third worksheet. */
  predicate ValidMonth(m: Month) {
    ' ' in m.title && |m.tabs| >= 3
  }

  /** What one month contributes. */
  datatype MonthRecord = MonthRecord(
    month: string, earned: real, spent: real, item: Entry, category: Entry)

  /** The cell whose text `float()` rejects, which ends the run. */
  datatype ParseError = ParseError(address: string, text: string)

  /** The position of the first space in `title`. */
  function FirstSpace(title: string): (i: nat)
    requires ' ' in title
    ensures i < |title| && title[i] == ' '
    ensures forall k :: 0 <= k < i ==> title[k] != ' '
  {
    if title[0] == ' ' then 0 else 1 + FirstSpace(title[1..])
  }

  /** Splitting at spaces cuts the title at its first space first. */
  lemma SplitAtFirstSpace(title: string)
    requires ' ' in title
    ensures Text.Split(title, " ")
         == [title[..FirstSpace(title)]] + Text.Split(title[FirstSpace(title) + 1..], " ")
  {
    var i := FirstSpace(title);
    Text.OccursAtChar(title, ' ', i);
    forall j: nat | j < i
      ensures !Text.OccursAt(title, " ", j)
    {
      Text.OccursAtChar(title, ' ', j);
    }
    Text.IndexOfIs(title, " ", i);
  }

  /** The first piece of `rest.split(' ')` is the longest space-free prefix
      of `rest`. */
  lemma FirstPiece(rest: string)
    ensures var r := Text.Split(rest, " ")[0];
            && ' ' !in r
            && |r| <= |rest| && rest[..|r|] == r && (|r| == |rest| || rest[|r|] == ' ')
  {
    var r := Text.Split(rest, " ")[0];
    Text.OccursChar(r, ' ');
    if Text.Occurs(rest, " ") {
      Text.OccursAtStart(rest, " ", Text.IndexOf(rest, " ").value);
    }
  }

  /** The second piece of `title.split(' ')` is what follows the first
      space, up to the next space or the end. */
  lemma SecondPiece(title: string)
    requires ' ' in title
    ensures |Text.Split(title, " ")| >= 2
    ensures var r := Text.Split(title, " ")[1];
            var rest := title[FirstSpace(title) + 1..];
            && ' ' !in r
            && |r| <= |rest| && rest[..|r|] == r && (|r| == |rest| || rest[|r|] == ' ')
  {
    SplitAtFirstSpace(title);
    FirstPiece(title[FirstSpace(title) + 1..]);
  }

  /** `title.split(' ')[1]`: the text between the first space and the next
      space, or the end of the title. */
  function MonthLabel(title: string): (r: string)
    requires ' ' in title
    ensures ' ' !in r
    ensures var rest := title[FirstSpace(title) + 1..];
            |r| <= |rest| && rest[..|r|] == r && (|r| == |rest| || rest[|r|] == ' ')
  {
    SecondPiece(title);
    Text.Split(title, " ")[1]
  }

  /** One currency cell read as an amount (lines 161-162, 165-166, 172-173,
      177-178), or the error `float()` raises on its cleaned text. */
  function ReadAmount(tab: Tab, address: string, suffix: string): (r: Result<real, ParseError>)
    requires |suffix| > 0
    ensures r.Success? <==> Currency.ParseAmount(CellText(tab, address), suffix).Some?
    ensures r.Success? ==> r.value == Currency.ParseAmount(CellText(tab, address), suffix).value
    ensures r.Failure? ==> r.error == ParseError(address, CellText(tab, address))
  {
    var text := CellText(tab, address);
    match Currency.ParseAmount(text, suffix)
    case Some(v) => Success(v)
    case None => Failure(ParseError(address, text))
  }

  /** A cell showing an amount in the sheet's currency format reads as that
      amount. */
  lemma ReadDisplayed(tab: Tab, address: string, whole: nat, frac: string, pad: string, suffix: string, v: real)
    requires Decimal.AllDigits(frac) && Text.AllSpace(pad) && Currency.SuffixAfterNumber(suffix)
    requires v == whole as real + Decimal.FractionValue(frac)
    requires address in tab && tab[address] == Currency.Display(whole, frac, pad, suffix)
    ensures ReadAmount(tab, address, suffix) == Success(v)
  {
    Currency.ParseDisplayed(whole, frac, pad, suffix, v);
  }

  /** A cell showing a whole amount in a format without decimals reads as
      that amount. */
  lemma ReadDisplayedWhole(tab: Tab, address: string, whole: nat, pad: string, suffix: string)
    requires Text.AllSpace(pad) && Currency.SuffixAfterNumber(suffix)
    requires address in tab && tab[address] == Currency.DisplayWhole(whole, pad, suffix)
    ensures ReadAmount(tab, address, suffix) == Success(whole as real)
  {
    Currency.ParseDisplayedWhole(whole, pad, suffix);
  }

  /** An empty cell reads as '', which `float()` rejects: the run stops with
      that cell's error. */
  lemma EmptyCellRefused(tab: Tab, address: string, suffix: string)
    requires |suffix| > 0 && address !in tab
    ensures ReadAmount(tab, address, suffix) == Failure(ParseError(address, ""))
  {
    assert !Text.Occurs("", suffix);
  }

  /** The four amounts a month provides, in the order the loop reads them. */
  function AmountAddresses(p: Params): seq<string> {
    [p.actualIncome, p.actualExpenses, p.mostExpensiveItemValue, p.mostExpensiveCategoryValue]
  }

  /** The worksheet each of those amounts is read from: the summary for the
      first two, the statistics for the other two. */
  function AmountTab(m: Month, k: nat): Tab
    requires ValidMonth(m) && k < 4
  {
    if k < 2 then m.tabs[0] else m.tabs[2]
  }

  /** The four amounts of month `m`, each read or refused, in the order the
      loop reads them. */
  function MonthAmounts(m: Month, p: Params): (r: seq<Result<real, ParseError>>)
    requires ValidMonth(m) && |p.currencySuffix| > 0
    ensures |r| == 4
  {
    seq(4, k requires 0 <= k < 4 => ReadAmount(AmountTab(m, k), AmountAddresses(p)[k], p.currencySuffix))
  }

  /** The position of the first refused read in `rs`. */
  function FirstFailure<T, E>(rs: seq<Result<T, E>>): (k: nat)
    requires exists k :: 0 <= k < |rs| && rs[k].Failure?
    ensures k < |rs| && rs[k].Failure?
    ensures forall j :: 0 <= j < k ==> rs[j].Success?
  {
    if rs[0].Failure? then 0 else 1 + FirstFailure(rs[1..])
  }

  /** The record the loop body builds (lines 157-180) for the month called
      `month`, whose statistics worksheet is `statistics`, from the outcomes
      `a` of its four amount reads: the first refused read ends the run with
      its error. */
  function MonthRecordOf(month: string, statistics: Tab, p: Params, a: seq<Result<real, ParseError>>): (r: Result<MonthRecord, ParseError>)
    requires |a| == 4
    ensures r.Success? <==> forall k :: 0 <= k < 4 ==> a[k].Success?
    ensures r.Success? ==>
              && r.value.month == month
              && r.value.earned == a[0].value
              && r.value.spent == a[1].value
              && r.value.item == (CellText(statistics, p.mostExpensiveItemDescription), a[2].value)
              && r.value.category == (CellText(statistics, p.mostExpensiveCategoryDescription), a[3].value)
    ensures r.Failure? ==> r.error == a[FirstFailure(a)].error
  {
    var earned :- a[0];
    var spent :- a[1];
    var itemValue :- a[2];
    var itemDescription := CellText(statistics, p.mostExpensiveItemDescription);
    var categoryValue :- a[3];
    var categoryDescription := CellText(statistics, p.mostExpensiveCategoryDescription);
    Success(MonthRecord(month, earned, spent,
                        (itemDescription, itemValue), (categoryDescription, categoryValue)))
  }

  /** The loop body's reads for one month (lines 157-180). */
  function ReadMonth(m: Month, p: Params): Result<MonthRecord, ParseError>
    requires ValidMonth(m) && |p.currencySuffix| > 0
  {
    MonthRecordOf(MonthLabel(m.title), m.tabs[2], p, MonthAmounts(m, p))
  }

  /** The outcome of reading every month, in the order the loop visits them. */
  function MonthReads(months: seq<Month>, p: Params): (r: seq<Result<MonthRecord, ParseError>>)
    requires forall m :: m in months ==> ValidMonth(m)
    requires |p.currencySuffix| > 0
    ensures |r| == |months|
  {
    seq(|months|, i requires 0 <= i < |months| => ReadMonth(months[i], p))
  }

  /** The sum of the amounts of a series, as the running totals add them up. */
  function Total(s: seq<Entry>): real {
    if |s| == 0 then 0.0 else Total(s[..|s| - 1]) + s[|s| - 1].1
  }

  /** Whether some record names `k` as its most expensive category. */
  predicate Reported(recs: seq<MonthRecord>, k: string) {
    exists i :: 0 <= i < |recs| && recs[i].category.0 == k
  }

  /** The reported categories, each once, in the order of their first
      report. */
  function Descriptions(recs: seq<MonthRecord>): (r: seq<string>)
    ensures forall k :: k in r <==> Reported(recs, k)
  {
    if |recs| == 0 then []
    else
      var init := Descriptions(recs[..|recs| - 1]);
      var k := recs[|recs| - 1].category.0;
      ReportedSnoc(recs[..|recs| - 1], recs[|recs| - 1], k);
      if k in init then init else init + [k]
  }

  /** The sum of the category values of the records that name `k`. */
  function CategoryTotal(recs: seq<MonthRecord>, k: string): real {
    if |recs| == 0 then 0.0
    else
      var last := recs[|recs| - 1];
      CategoryTotal(recs[..|recs| - 1], k) + (if last.category.0 == k then last.category.1 else 0.0)
  }

  /** What the loop has built after visiting the months whose records are
      `recs`: one entry per month in each series, in month order; running
      totals that are the sums of their series; and the category map. */
  datatype YearStats = YearStats(
    earned: seq<Entry>,
    spent: seq<Entry>,
    saved: seq<Entry>,
    items: seq<Entry>,
    categories: Dict<string, real>,
    totalEarned: real,
    totalSpent: real,
    totalSaved: real)

  /** The state before the first month (lines 141-149). */
  const Start := YearStats([], [], [], [], [], 0.0, 0.0, 0.0)

  /** The four per-month series the loop appends to (lines 186-190). */
  datatype Series = Earned | Spent | Saved | Items

  /** The entry a month's record contributes to a series: saved is income
      minus expenses. */
  function EntryOf(rec: MonthRecord, series: Series): Entry {
    match series
    case Earned => (rec.month, rec.earned)
    case Spent => (rec.month, rec.spent)
    case Saved => (rec.month, rec.earned - rec.spent)
    case Items => rec.item
  }

  /** `xs` holds one entry of `series` per record, in record order. */
  ghost predicate Follows(xs: seq<Entry>, recs: seq<MonthRecord>, series: Series) {
    |xs| == |recs| && forall i :: 0 <= i < |recs| ==> xs[i] == EntryOf(recs[i], series)
  }

  /** The series hold one entry per record, in record order (lines 186-190). */
  ghost predicate SeriesOf(s: YearStats, recs: seq<MonthRecord>) {
    && Follows(s.earned, recs, Earned)
    && Follows(s.spent, recs, Spent)
    && Follows(s.saved, recs, Saved)
    && Follows(s.items, recs, Items)
  }

  /** Each running total is the sum of its series (lines 163-170). */
  ghost predicate TotalsOf(s: YearStats) {
    && s.totalEarned == Total(s.earned)
    && s.totalSpent == Total(s.spent)
    && s.totalSaved == Total(s.saved)
    && s.totalSaved == s.totalEarned - s.totalSpent
  }

  /** The category map holds exactly the reported categories, each with the
      sum of its values (lines 182-185). */
  ghost predicate CategoriesOf(d: Dict<string, real>, recs: seq<MonthRecord>) {
    && Valid(d)
    && KeySeq(d) == Descriptions(recs)
    && (forall k :: Get(d, k) == if Reported(recs, k) then Some(CategoryTotal(recs, k)) else None)
  }

  /** The loop's promise about its state after the records `recs`. */
  ghost predicate Summarises(s: YearStats, recs: seq<MonthRecord>) {
    SeriesOf(s, recs) && TotalsOf(s) && CategoriesOf(s.categories, recs)
  }

  /** The new value of a category that held `prior` when `v` is added. */
  function Added(prior: Option<real>, v: real): real {
    match prior
    case Some(sum) => sum + v
    case None => v
  }

  /** Adding `v` to the category `k`, which is created at the end of the map
      on its first report (lines 182-185). */
  function Merge(d: Dict<string, real>, k: string, v: real): (r: Dict<string, real>)
    requires Valid(d)
    ensures Valid(r)
    ensures Get(r, k) == Some(Added(Get(d, k), v))
    ensures forall k' :: k' != k ==> Get(r, k') == Get(d, k')
    ensures KeySeq(r) == if k in KeySeq(d) then KeySeq(d) else KeySeq(d) + [k]
  {
    Put(d, k, Added(Get(d, k), v))
  }

  /** The end of one loop iteration (lines 163-170 and 182-190). */
  function Accumulate(s: YearStats, rec: MonthRecord): (r: YearStats)
    requires Valid(s.categories)
    ensures |r.earned| == |s.earned| + 1 && |r.spent| == |s.spent| + 1
    ensures |r.saved| == |s.saved| + 1 && |r.items| == |s.items| + 1
  {
    var saved := rec.earned - rec.spent;
    YearStats(
      s.earned + [(rec.month, rec.earned)],
      s.spent + [(rec.month, rec.spent)],
      s.saved + [(rec.month, saved)],
      s.items + [rec.item],
      Merge(s.categories, rec.category.0, rec.category.1),
      s.totalEarned + rec.earned,
      s.totalSpent + rec.spent,
      s.totalSaved + saved)
  }

  /** The loop's invariant holds before the first month. */
  lemma StartSummarises()
    ensures Summarises(Start, [])
  {
  }

  /** One loop iteration keeps the invariant: the new month's record is
      appended to every series, its amounts are added to the totals and its
      category value is merged into the map. */
  lemma AccumulateSummarises(s: YearStats, recs: seq<MonthRecord>, rec: MonthRecord)
    requires Summarises(s, recs)
    ensures Summarises(Accumulate(s, rec), recs + [rec])
  {
    var r := Accumulate(s, rec);
    AccumulateSeries(s, recs, rec);
    AccumulateTotals(s, rec, r);
    AccumulateCategories(s.categories, recs, rec);
    assert r.categories == Merge(s.categories, rec.category.0, rec.category.1);
  }

  /** Appending a month's entry to a series extends it by that month. */
  lemma FollowsSnoc(xs: seq<Entry>, recs: seq<MonthRecord>, rec: MonthRecord, series: Series)
    requires Follows(xs, recs, series)
    ensures Follows(xs + [EntryOf(rec, series)], recs + [rec], series)
  {
    var xs' := xs + [EntryOf(rec, series)];
    var recs' := recs + [rec];
    forall i | 0 <= i < |recs'|
      ensures xs'[i] == EntryOf(recs'[i], series)
    {
      if i < |recs| {
        assert xs'[i] == xs[i] && recs'[i] == recs[i];
      }
    }
  }

  lemma AccumulateSeries(s: YearStats, recs: seq<MonthRecord>, rec: MonthRecord)
    requires Valid(s.categories) && SeriesOf(s, recs)
    ensures SeriesOf(Accumulate(s, rec), recs + [rec])
  {
    FollowsSnoc(s.earned, recs, rec, Earned);
    FollowsSnoc(s.spent, recs, rec, Spent);
    FollowsSnoc(s.saved, recs, rec, Saved);
    FollowsSnoc(s.items, recs, rec, Items);
  }

  /** Appending an entry adds its amount to the total. */
  lemma TotalSnoc(xs: seq<Entry>, e: Entry)
    ensures Total(xs + [e]) == Total(xs) + e.1
  {
    assert (xs + [e])[..|xs|] == xs;
  }

  /** Appending a month to the series and adding its amounts to the totals
      keeps each total the sum of its series. */
  lemma AccumulateTotals(s: YearStats, rec: MonthRecord, r: YearStats)
    requires TotalsOf(s)
    requires && r.earned == s.earned + [EntryOf(rec, Earned)]
             && r.spent == s.spent + [EntryOf(rec, Spent)]
             && r.saved == s.saved + [EntryOf(rec, Saved)]
    requires && r.totalEarned == s.totalEarned + rec.earned
             && r.totalSpent == s.totalSpent + rec.spent
             && r.totalSaved == s.totalSaved + (rec.earned - rec.spent)
    ensures TotalsOf(r)
  {
    TotalSnoc(s.earned, EntryOf(rec, Earned));
    TotalSnoc(s.spent, EntryOf(rec, Spent));
    TotalSnoc(s.saved, EntryOf(rec, Saved));
  }

  lemma AccumulateCategories(d: Dict<string, real>, recs: seq<MonthRecord>, rec: MonthRecord)
    requires CategoriesOf(d, recs)
    ensures CategoriesOf(Merge(d, rec.category.0, rec.category.1), recs + [rec])
  {
    var c := rec.category.0;
    var r := Merge(d, c, rec.category.1);
    var recs' := recs + [rec];
    assert recs'[..|recs|] == recs && recs'[|recs|] == rec;
    assert Descriptions(recs') == if c in Descriptions(recs) then Descriptions(recs) else Descriptions(recs) + [c];
    forall k
      ensures Get(r, k) == if Reported(recs', k) then Some(CategoryTotal(recs', k)) else None
    {
      assert Get(d, k) == if Reported(recs, k) then Some(CategoryTotal(recs, k)) else None;
      MergeCategory(d, recs, rec, k);
    }
  }

  /** What the merged map holds for one category `k`. */
  lemma MergeCategory(d: Dict<string, real>, recs: seq<MonthRecord>, rec: MonthRecord, k: string)
    requires Valid(d)
    requires Get(d, k) == if Reported(recs, k) then Some(CategoryTotal(recs, k)) else None
    ensures var recs' := recs + [rec];
            Get(Merge(d, rec.category.0, rec.category.1), k)
              == if Reported(recs', k) then Some(CategoryTotal(recs', k)) else None
  {
    var recs' := recs + [rec];
    ReportedSnoc(recs, rec, k);
    CategoryTotalSnoc(recs, rec, k);
    if !Reported(recs, k) {
      UnreportedTotal(recs, k);
    }
    TallyStep(Get(d, k), Get(Merge(d, rec.category.0, rec.category.1), k),
              Reported(recs, k), Reported(recs', k), CategoryTotal(recs, k), CategoryTotal(recs', k),
              rec.category.0 == k, rec.category.1);
  }

  /** One merge step on a single category's entry: `before` is the entry
      for a category reported `reported` times so far with tally `total`;
      `hit` says whether the new month reports it, with value `v`. */
  lemma TallyStep(before: Option<real>, after: Option<real>, reported: bool, reported': bool,
                  total: real, total': real, hit: bool, v: real)
    requires before == if reported then Some(total) else None
    requires after == if hit then Some(Added(before, v)) else before
    requires reported' == (reported || hit)
    requires total' == total + (if hit then v else 0.0)
    requires !reported ==> total == 0.0
    ensures after == if reported' then Some(total') else None
  {
  }

  /** The last record adds its category value to its own category only. */
  lemma CategoryTotalSnoc(recs: seq<MonthRecord>, rec: MonthRecord, k: string)
    ensures CategoryTotal(recs + [rec], k)
         == CategoryTotal(recs, k) + (if rec.category.0 == k then rec.category.1 else 0.0)
  {
    assert (recs + [rec])[..|recs|] == recs;
  }

  /** A category is reported by `recs + [rec]` when `recs` or `rec` does. */
  lemma ReportedSnoc(recs: seq<MonthRecord>, rec: MonthRecord, k: string)
    ensures Reported(recs + [rec], k) <==> Reported(recs, k) || rec.category.0 == k
  {
    var recs' := recs + [rec];
    if Reported(recs, k) {
      var i :| 0 <= i < |recs| && recs[i].category.0 == k;
      assert recs'[i] == recs[i];
    }
    if rec.category.0 == k {
      assert recs'[|recs|] == rec;
    }
  }

  /** A category nobody reported has nothing summed for it. */
  lemma {:induction false} UnreportedTotal(recs: seq<MonthRecord>, k: string)
    requires !Reported(recs, k)
    ensures CategoryTotal(recs, k) == 0.0
  {
    if |recs| > 0 {
      UnreportedTotal(recs[..|recs| - 1], k);
    }
  }

  /** The records of a run in which every month read. */
  function Records(outcomes: seq<Result<MonthRecord, ParseError>>): (recs: seq<MonthRecord>)
    requires forall i :: 0 <= i < |outcomes| ==> outcomes[i].Success?
    ensures |recs| == |outcomes|
    ensures forall i :: 0 <= i < |outcomes| ==> outcomes[i] == Success(recs[i])
  {
    seq(|outcomes|, i requires 0 <= i < |outcomes| => outcomes[i].value)
  }

  /** The first failure of a sequence is that of all but its last element,
      or its last element when that is the only failure. */
  lemma FirstFailureInit<T, E>(rs: seq<Result<T, E>>)
    requires |rs| > 0
    ensures var init := rs[..|rs| - 1];
            (exists k :: 0 <= k < |init| && init[k].Failure?) ==> FirstFailure(rs) == FirstFailure(init)
    ensures var init := rs[..|rs| - 1];
            (forall k :: 0 <= k < |init| ==> init[k].Success?) && rs[|rs| - 1].Failure? ==>
              FirstFailure(rs) == |rs| - 1
  {
    var init := rs[..|rs| - 1];
    if exists k :: 0 <= k < |init| && init[k].Failure? {
      var k := FirstFailure(init);
      assert rs[k] == init[k];
      assert forall j :: 0 <= j < k ==> rs[j] == init[j];
    }
  }

  /** The records of a run are those of all but its last month, followed by
      the last month's. */
  lemma RecordsInit(outcomes: seq<Result<MonthRecord, ParseError>>)
    requires |outcomes| > 0 && outcomes[|outcomes| - 1].Success?
    requires var init := outcomes[..|outcomes| - 1];
             forall i :: 0 <= i < |init| ==> init[i].Success?
    ensures forall i :: 0 <= i < |outcomes| ==> outcomes[i].Success?
    ensures Records(outcomes) == Records(outcomes[..|outcomes| - 1]) + [outcomes[|outcomes| - 1].value]
  {
    var init := outcomes[..|outcomes| - 1];
    assert forall i :: 0 <= i < |init| ==> outcomes[i] == init[i];
    assert Records(outcomes)[..|init|] == Records(init);
  }

  /** The loop of `calculate_statistics` over the months in order (lines
      151-190), given what reading each month gives. A month with an amount
      `float()` rejects raises, which ends the run before anything is
      written: the result is then the error of the first such month.
      Otherwise the state satisfies the loop's invariant for the records of
      all months. */
  function Fold(outcomes: seq<Result<MonthRecord, ParseError>>): (r: Result<YearStats, ParseError>)
    ensures r.Success? <==> forall i :: 0 <= i < |outcomes| ==> outcomes[i].Success?
    ensures r.Success? ==> Summarises(r.value, Records(outcomes))
    ensures r.Failure? ==> r.error == outcomes[FirstFailure(outcomes)].error
  {
    if |outcomes| == 0 then
      StartSummarises();
      Success(Start)
    else
      var init := outcomes[..|outcomes| - 1];
      FirstFailureInit(outcomes);
      var s :- Fold(init);
      var rec :- outcomes[|outcomes| - 1];
      RecordsInit(outcomes);
      AccumulateSummarises(s, Records(init), rec);
      Success(Accumulate(s, rec))
  }

  /** The loop over the months of the year in order. */
  function Reduce(months: seq<Month>, p: Params): Result<YearStats, ParseError>
    requires forall m :: m in months ==> ValidMonth(m)
    requires |p.currencySuffix| > 0
  {
    Fold(MonthReads(months, p))
  }

  /** The three totals written to fixed cells (lines 192-197). */
  function TotalsWrites(s: YearStats, p: Params): (r: seq<Write>)
    ensures |r| == 3
  {
    [Write(p.moneyEarned, Number(s.totalEarned)),
     Write(p.moneySpent, Number(s.totalSpent)),
     Write(p.moneySaved, Number(s.totalSaved))]
  }

  /** The writes of one `update_lists` call. */
  function RankingWrites(stats: seq<Entry>, anchor: string, descending: bool, n: int): (r: seq<Write>)
    requires Ranking.ValidAnchor(anchor)
    ensures |r| == 2 * Ranking.Count(n, |stats|)
  {
    Ranking.UpdateLists(stats, anchor, descending, n).1
  }

  /** The six rankings in source order (lines 199-210). `money_spent` is
      sorted in place by the second ranking, so the fourth ranking sorts the
      list that the second one left behind. The category ranking reads the
      map's entries in key order. */
  function Rankings(s: YearStats, p: Params): (r: seq<Write>)
    requires ValidParams(p)
    ensures |r| == 2 * (Ranking.Count(3, |s.earned|) + 2 * Ranking.Count(3, |s.spent|)
                        + Ranking.Count(3, |s.saved|) + Ranking.Count(5, |s.items|)
                        + Ranking.Count(5, |s.categories|))
  {
    var spentDescending := Ranking.UpdateLists(s.spent, p.top1MostSpent, true, 3).0;
    RankingWrites(s.earned, p.top1MostEarned, true, 3)
    + RankingWrites(s.spent, p.top1MostSpent, true, 3)
    + RankingWrites(s.saved, p.top1MostSaved, true, 3)
    + RankingWrites(spentDescending, p.top1LeastSpent, false, 3)
    + RankingWrites(s.items, p.mostExpensiveItem, true, 5)
    + RankingWrites(s.categories, p.mostExpensiveCategory, true, 5)
  }

  /** The write-back after the loop (lines 192-210): the three totals, then
      the six rankings. */
  function WriteBack(s: YearStats, p: Params): (r: seq<Write>)
    requires ValidParams(p)
    ensures |r| == 3 + 2 * (Ranking.Count(3, |s.earned|) + 2 * Ranking.Count(3, |s.spent|)
                            + Ranking.Count(3, |s.saved|) + Ranking.Count(5, |s.items|)
                            + Ranking.Count(5, |s.categories|))
    ensures r[..3] == TotalsWrites(s, p)
  {
    TotalsWrites(s, p) + Rankings(s, p)
  }

  /** Sorting the descending spent series ascending ranks it as sorting the
      series in month order would. */
  lemma LeastSpentResorted(spent: seq<Entry>, mostAnchor: string, leastAnchor: string)
    requires Ranking.ValidAnchor(mostAnchor) && Ranking.ValidAnchor(leastAnchor)
    ensures RankingWrites(Ranking.UpdateLists(spent, mostAnchor, true, 3).0, leastAnchor, false, 3)
         == RankingWrites(spent, leastAnchor, false, 3)
  {
    ResortAscending(spent);
  }

  /** The least-spent ranking does not depend on the earlier in-place sort:
      it is the ranking of the spent series, in month order, sorted
      ascending. The write-back is thus the totals followed by six rankings
      that each read their own series. */
  lemma WriteBackRankings(s: YearStats, p: Params)
    requires ValidParams(p)
    ensures WriteBack(s, p) ==
              TotalsWrites(s, p)
              + (Ranking.UpdateLists(s.earned, p.top1MostEarned, true, 3).1
                 + Ranking.UpdateLists(s.spent, p.top1MostSpent, true, 3).1
                 + Ranking.UpdateLists(s.saved, p.top1MostSaved, true, 3).1
                 + Ranking.UpdateLists(s.spent, p.top1LeastSpent, false, 3).1
                 + Ranking.UpdateLists(s.items, p.mostExpensiveItem, true, 5).1
                 + Ranking.UpdateLists(s.categories, p.mostExpensiveCategory, true, 5).1)
  {
    LeastSpentResorted(s.spent, p.top1MostSpent, p.top1LeastSpent);
  }

  /** `calculate_statistics` (lines 136-210) as the writes it makes to the
      year-summary statistics worksheet. When an amount of some month does
      not read, the run stops before the first write, with the error of the
      first such month. Otherwise the writes are the write-back of the state
      the loop's invariant describes for the records of all months. */
  function CalculateStatistics(months: seq<Month>, p: Params): (r: Result<seq<Write>, ParseError>)
    requires ValidParams(p)
    requires forall m :: m in months ==> ValidMonth(m)
    ensures var outcomes := MonthReads(months, p);
            r.Success? <==> forall i :: 0 <= i < |months| ==> outcomes[i].Success?
    ensures var outcomes := MonthReads(months, p);
            r.Failure? ==> r.error == outcomes[FirstFailure(outcomes)].error
    ensures r.Success? ==>
              exists s :: Summarises(s, Records(MonthReads(months, p))) && r.value == WriteBack(s, p)
  {
    var s :- Reduce(months, p);
    Success(WriteBack(s, p))
  }

  /** A run over `n` readable months writes the three totals, up to three
      rows for each of the four month rankings, and up to five rows for the
      item and category rankings: one row per distinct category, at most. */
  lemma CalculateStatisticsCount(months: seq<Month>, p: Params)
    requires ValidParams(p)
    requires forall m :: m in months ==> ValidMonth(m)
    requires CalculateStatistics(months, p).Success?
    ensures var n := |months|;
            var categories := |Descriptions(Records(MonthReads(months, p)))|;
            |CalculateStatistics(months, p).value|
              == 3 + 2 * (4 * Ranking.Count(3, n) + Ranking.Count(5, n) + Ranking.Count(5, categories))
  {
    var recs := Records(MonthReads(months, p));
    var s :| Summarises(s, recs) && CalculateStatistics(months, p).value == WriteBack(s, p);
    assert |s.categories| == |KeySeq(s.categories)|;
  }
}
