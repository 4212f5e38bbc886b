/** The car search: a fixed three-way join whose WHERE clause gets one
    condition per non-empty filter, in the order brand, model, year, price.
    Each filter value is bound as a positional argument; the SQL text only
    ever holds the argument's placeholder `$n`. */
module SearchQuery {
  import opened Wrappers
  import opened Utf8
  import opened Catalog
  import opened Strings
  import QueryString

  /** The four filter dimensions. */
  datatype Dimension = BrandFilter | ModelFilter | YearFilter | PriceFilter

  /** The order in which the filters are examined. */
  const Order: seq<Dimension> := [BrandFilter, ModelFilter, YearFilter, PriceFilter]

  function Rank(d: Dimension): nat {
    match d
    case BrandFilter => 0
    case ModelFilter => 1
    case YearFilter => 2
    case PriceFilter => 3
  }

  /** The raw filter values of one search; an empty value means "no filter". */
  datatype Filters = Filters(brandId: Bytes, modelId: Bytes, year: Bytes, price: Bytes)

  function ValueOf(f: Filters, d: Dimension): Bytes {
    match d
    case BrandFilter => f.brandId
    case ModelFilter => f.modelId
    case YearFilter => f.year
    case PriceFilter => f.price
  }

  predicate NoFilters(f: Filters) {
    forall d: Dimension :: ValueOf(f, d) == []
  }

  /** Two searches have the same shape when the same filters are empty. */
  predicate SameShape(f: Filters, g: Filters) {
    forall d: Dimension :: (ValueOf(f, d) == []) == (ValueOf(g, d) == [])
  }

  /** The dimensions of `ds` whose filter is set, keeping their order. */
  function Select(f: Filters, ds: seq<Dimension>): seq<Dimension> {
    if ds == [] then []
    else (if ValueOf(f, ds[0]) != [] then [ds[0]] else []) + Select(f, ds[1..])
  }

  /** The filters that take part in the search. */
  function Present(f: Filters): seq<Dimension> {
    Select(f, Order)
  }

  datatype Column = BrandId | ModelId | CarYear | CarPrice

  datatype Comparison = Equal | AtMost

  /** One appended condition: `column comparison $placeholder`. */
  datatype Condition = Condition(column: Column, comparison: Comparison, placeholder: nat)

  function ColumnOf(d: Dimension): Column {
    match d
    case BrandFilter => BrandId
    case ModelFilter => ModelId
    case YearFilter => CarYear
    case PriceFilter => CarPrice
  }

  /** Price is a maximum; every other filter is an exact match. */
  function ComparisonOf(d: Dimension): Comparison {
    if d == PriceFilter then AtMost else Equal
  }

  /** The conditions for the dimensions `ds`: the k-th of them, against its
      column, bound to placeholder k (counting from 1). */
  function PlanFor(ds: seq<Dimension>): seq<Condition> {
    seq(|ds|, i requires 0 <= i < |ds| => Condition(ColumnOf(ds[i]), ComparisonOf(ds[i]), i + 1))
  }

  /** The values of the filters `ds`, in that order. */
  function ArgsFor(f: Filters, ds: seq<Dimension>): seq<Bytes> {
    seq(|ds|, i requires 0 <= i < |ds| => ValueOf(f, ds[i]))
  }

  /** The conditions of a search. */
  function Plan(f: Filters): seq<Condition> {
    PlanFor(Present(f))
  }

  /** The positional arguments of a search. */
  function Args(f: Filters): seq<Bytes> {
    ArgsFor(f, Present(f))
  }

  // ---------------------------------------------------------------------
  // SQL text

  const BaseQuery: string :=
    "\n        SELECT c.id, b.name AS brand_name, m.name AS model_name, c.year, c.price"
    + "\n        FROM cars c"
    + "\n        JOIN models m ON c.model_id = m.id"
    + "\n        JOIN brands b ON m.brand_id = b.id"
    + "\n        WHERE 1=1"
    + "\n    "

  /** The format strings the search uses for each filter, up to the placeholder number. */
  const BrandCondition: string := "AND b.id = $"
  const ModelCondition: string := "AND m.id = $"
  const YearCondition: string := "AND c.year = $"
  const PriceCondition: string := "AND c.price <= $"

  function TemplateOf(d: Dimension): string {
    match d
    case BrandFilter => BrandCondition
    case ModelFilter => ModelCondition
    case YearFilter => YearCondition
    case PriceFilter => PriceCondition
  }

  function ColumnName(c: Column): string {
    match c
    case BrandId => "b.id"
    case ModelId => "m.id"
    case CarYear => "c.year"
    case CarPrice => "c.price"
  }

  function OperatorText(c: Comparison): string {
    match c
    case Equal => "="
    case AtMost => "<="
  }

  function Digit(d: nat): (c: char)
    requires d < 10
    ensures '0' <= c <= '9' && c as int - '0' as int == d
  {
    ('0' as int + d) as char
  }

  /** A natural number in decimal, as `%d` prints it. */
  function Decimal(n: nat): (s: string)
    ensures |s| >= 1
    ensures forall i :: 0 <= i < |s| ==> '0' <= s[i] <= '9'
    ensures s[0] == '0' ==> n == 0
  {
    if n < 10 then [Digit(n)] else Decimal(n / 10) + [Digit(n % 10)]
  }

  /** Reads a string of decimal digits back as a number. */
  function ParseDecimal(s: string): nat
    requires forall i :: 0 <= i < |s| ==> '0' <= s[i] <= '9'
  {
    if s == [] then 0
    else 10 * ParseDecimal(s[..|s| - 1]) + (s[|s| - 1] as int - '0' as int)
  }

  /** A placeholder's number is recovered from its text. */
  lemma {:induction false} DecimalRoundTrip(n: nat)
    ensures ParseDecimal(Decimal(n)) == n
  {
    if n >= 10 {
      var s := Decimal(n);
      assert s[..|s| - 1] == Decimal(n / 10);
      DecimalRoundTrip(n / 10);
    }
  }

  function Render(c: Condition): string {
    "AND " + ColumnName(c.column) + " " + OperatorText(c.comparison) + " $" + Decimal(c.placeholder)
  }

  function RenderAll(conds: seq<Condition>): seq<string> {
    seq(|conds|, i requires 0 <= i < |conds| => Render(conds[i]))
  }

  /** The SQL text sent for a list of conditions. */
  function QueryText(conds: seq<Condition>): string {
    BaseQuery + Join(RenderAll(conds), " ")
  }

  // ---------------------------------------------------------------------
  // The builder and the search

  /** Builds the query text and the argument list the way the search does:
      one `if` per filter, numbering each placeholder by the length of the
      argument list just after its value was appended. */
  method BuildSearchQuery(brandId: Bytes, modelId: Bytes, year: Bytes, price: Bytes)
    returns (query: string, args: seq<Bytes>)
    ensures args == Args(Filters(brandId, modelId, year, price))
    ensures query == QueryText(Plan(Filters(brandId, modelId, year, price)))
  {
    ghost var f := Filters(brandId, modelId, year, price);
    ghost var dims: seq<Dimension> := [];    // the filters appended so far
    query := BaseQuery;
    args := [];
    var conditions: seq<string> := [];
    args, conditions := AddFilter(args, conditions, brandId, BrandCondition, f, dims, BrandFilter);
    dims := dims + (if brandId != [] then [BrandFilter] else []);
    args, conditions := AddFilter(args, conditions, modelId, ModelCondition, f, dims, ModelFilter);
    dims := dims + (if modelId != [] then [ModelFilter] else []);
    args, conditions := AddFilter(args, conditions, year, YearCondition, f, dims, YearFilter);
    dims := dims + (if year != [] then [YearFilter] else []);
    args, conditions := AddFilter(args, conditions, price, PriceCondition, f, dims, PriceFilter);
    dims := dims + (if price != [] then [PriceFilter] else []);
    Finish(f, dims, args, conditions);
    query := query + Join(conditions, " ");
  }

  /** One of the search's four `if` blocks: a non-empty value is appended to
      the arguments, and its condition, numbered by the new argument count,
      to the conditions; an empty value leaves both alone. */
  method AddFilter(args: seq<Bytes>, conditions: seq<string>, value: Bytes, template: string,
                   ghost f: Filters, ghost dims: seq<Dimension>, ghost d: Dimension)
    returns (args': seq<Bytes>, conditions': seq<string>)
    requires Built(f, dims, args, conditions)
    requires value == ValueOf(f, d) && template == TemplateOf(d)
    ensures Built(f, dims + (if value != [] then [d] else []), args', conditions')
  {
    args', conditions' := args, conditions;
    if value != [] {
      Extend(f, dims, args, conditions, d);
      args' := args' + [value];
      conditions' := conditions' + [template + Decimal(|args'|)];
    } else {
      assert dims + [] == dims;
    }
  }

  /** The builder has produced the arguments and conditions of the dimensions `dims`. */
  predicate Built(f: Filters, dims: seq<Dimension>, args: seq<Bytes>, conditions: seq<string>) {
    args == ArgsFor(f, dims) && conditions == RenderAll(PlanFor(dims))
  }

  /** One filter's `if`: appending its value and its condition, or leaving
      both alone when the value is empty, keeps the builder's state that of
      the filters appended so far. */
  lemma Extend(f: Filters, dims: seq<Dimension>, args: seq<Bytes>, conditions: seq<string>, d: Dimension)
    requires Built(f, dims, args, conditions)
    ensures |args| == |dims|
    ensures Built(f, dims + [d], args + [ValueOf(f, d)], conditions + [TemplateOf(d) + Decimal(|args| + 1)])
  {
    ArgsForSnoc(f, dims, d);
    PlanForSnoc(dims, d);
    RenderAllSnoc(PlanFor(dims), Condition(ColumnOf(d), ComparisonOf(d), |dims| + 1));
    TemplateRenders(d, |dims| + 1);
  }

  /** Once every filter has been seen, the builder's state is the search plan. */
  lemma Finish(f: Filters, dims: seq<Dimension>, args: seq<Bytes>, conditions: seq<string>)
    requires Built(f, dims, args, conditions)
    requires dims == (if f.brandId != [] then [BrandFilter] else []) + (if f.modelId != [] then [ModelFilter] else [])
                     + (if f.year != [] then [YearFilter] else []) + (if f.price != [] then [PriceFilter] else [])
    ensures args == Args(f)
    ensures BaseQuery + Join(conditions, " ") == QueryText(Plan(f))
  {
    PresentUnfolded(f);
  }

  lemma ArgsForSnoc(f: Filters, dims: seq<Dimension>, d: Dimension)
    ensures ArgsFor(f, dims + [d]) == ArgsFor(f, dims) + [ValueOf(f, d)]
  {
    var ds := dims + [d];
    assert forall i :: 0 <= i < |dims| ==> ds[i] == dims[i];
  }

  lemma PlanForSnoc(dims: seq<Dimension>, d: Dimension)
    ensures PlanFor(dims + [d]) == PlanFor(dims) + [Condition(ColumnOf(d), ComparisonOf(d), |dims| + 1)]
  {
  }

  lemma RenderAllSnoc(cs: seq<Condition>, c: Condition)
    ensures RenderAll(cs + [c]) == RenderAll(cs) + [Render(c)]
  {
  }

  /** Each format string renders the condition of its filter. */
  lemma TemplateRenders(d: Dimension, n: nat)
    ensures TemplateOf(d) + Decimal(n) == Render(Condition(ColumnOf(d), ComparisonOf(d), n))
  {
    var c := Condition(ColumnOf(d), ComparisonOf(d), n);
    var prefix := "AND " + ColumnName(c.column) + " " + OperatorText(c.comparison) + " $";
    assert Render(c) == prefix + Decimal(n);
    match d
    case BrandFilter => assert prefix == "AND b.id = $";
    case ModelFilter => assert prefix == "AND m.id = $";
    case YearFilter => assert prefix == "AND c.year = $";
    case PriceFilter => assert prefix == "AND c.price <= $";
  }

  lemma PresentUnfolded(f: Filters)
    ensures Present(f) ==
      (if f.brandId != [] then [BrandFilter] else []) +
      (if f.modelId != [] then [ModelFilter] else []) +
      (if f.year != [] then [YearFilter] else []) +
      (if f.price != [] then [PriceFilter] else [])
  {
    var none: seq<Dimension> := [];
    SelectSnoc(f, none, BrandFilter);
    SelectSnoc(f, none + [BrandFilter], ModelFilter);
    SelectSnoc(f, none + [BrandFilter] + [ModelFilter], YearFilter);
    SelectSnoc(f, none + [BrandFilter] + [ModelFilter] + [YearFilter], PriceFilter);
    assert none + [BrandFilter] + [ModelFilter] + [YearFilter] + [PriceFilter] == Order;
  }

  lemma {:induction false} SelectSnoc(f: Filters, ds: seq<Dimension>, d: Dimension)
    ensures Select(f, ds + [d]) == Select(f, ds) + (if ValueOf(f, d) != [] then [d] else [])
  {
    if ds == [] {
      assert ([] + [d])[1..] == [];
    } else {
      assert (ds + [d])[0] == ds[0];
      assert (ds + [d])[1..] == ds[1..] + [d];
      SelectSnoc(f, ds[1..], d);
    }
  }

  // ---------------------------------------------------------------------
  // Properties of the search plan

  lemma {:induction false} SelectMembers(f: Filters, ds: seq<Dimension>, d: Dimension)
    ensures d in Select(f, ds) <==> d in ds && ValueOf(f, d) != []
  {
    if ds != [] {
      SelectMembers(f, ds[1..], d);
      assert d in ds <==> d == ds[0] || d in ds[1..];
    }
  }

  /** A filter takes part in the search exactly when its value is non-empty. */
  lemma PresentMembers(f: Filters)
    ensures forall d :: d in Present(f) <==> ValueOf(f, d) != []
  {
    forall d ensures d in Present(f) <==> ValueOf(f, d) != [] {
      SelectMembers(f, Order, d);
    }
  }

  predicate Ascending(ds: seq<Dimension>) {
    forall i, j :: 0 <= i < j < |ds| ==> Rank(ds[i]) < Rank(ds[j])
  }

  lemma {:induction false} SelectAscending(f: Filters, ds: seq<Dimension>)
    requires Ascending(ds)
    ensures Ascending(Select(f, ds))
  {
    if ds != [] {
      var rest := Select(f, ds[1..]);
      SelectAscending(f, ds[1..]);
      forall k | 0 <= k < |rest| ensures Rank(ds[0]) < Rank(rest[k]) {
        SelectMembers(f, ds[1..], rest[k]);
        var j :| 0 <= j < |ds[1..]| && ds[1..][j] == rest[k];
        assert ds[j + 1] == rest[k];
      }
    }
  }

  /** Whatever subset of filters is set, they appear in the order brand,
      model, year, price, each at most once. */
  lemma PresentOrdered(f: Filters)
    ensures Ascending(Present(f))
  {
    SelectAscending(f, Order);
  }

  lemma HeadNotInTail(ds: seq<Dimension>)
    requires Ascending(ds) && ds != []
    ensures ds[0] !in ds[1..]
  {
    forall j | 0 <= j < |ds[1..]| ensures ds[1..][j] != ds[0] {
      assert ds[1..][j] == ds[j + 1];
    }
  }

  lemma {:induction false} DistinctCard(ds: seq<Dimension>)
    requires Ascending(ds)
    ensures |set d | d in ds| == |ds|
  {
    if ds != [] {
      DistinctCard(ds[1..]);
      HeadNotInTail(ds);
      assert (set d | d in ds) == {ds[0]} + (set d | d in ds[1..]);
    }
  }

  /** There is one argument per non-empty filter, and it is that filter's
      value, unchanged. */
  lemma ArgumentsAreFilterValues(f: Filters)
    ensures |Args(f)| == |set d | d in Order && ValueOf(f, d) != []|
    ensures forall i :: 0 <= i < |Args(f)| ==>
              Args(f)[i] == ValueOf(f, Present(f)[i]) && Args(f)[i] != []
  {
    PresentMembers(f);
    PresentOrdered(f);
    DistinctCard(Present(f));
    assert (set d | d in Order && ValueOf(f, d) != []) == (set d | d in Present(f));
  }

  /** Condition k is rendered from its filter's format string and the
      placeholder `$k`, which names argument k; only the price condition is
      an upper bound. */
  lemma ConditionsBindArguments(f: Filters)
    ensures |Plan(f)| == |Args(f)|
    ensures forall i :: 0 <= i < |Plan(f)| ==>
              && Render(Plan(f)[i]) == TemplateOf(Present(f)[i]) + Decimal(i + 1)
              && ParseDecimal(Decimal(i + 1)) == i + 1
              && Args(f)[Plan(f)[i].placeholder - 1] == ValueOf(f, Present(f)[i])
              && (Plan(f)[i].comparison == AtMost <==> Present(f)[i] == PriceFilter)
  {
    var p := Present(f);
    forall i | 0 <= i < |p|
      ensures Render(Plan(f)[i]) == TemplateOf(p[i]) + Decimal(i + 1)
      ensures ParseDecimal(Decimal(i + 1)) == i + 1
    {
      TemplateRenders(p[i], i + 1);
      DecimalRoundTrip(i + 1);
    }
  }

  /** The SQL text is the base query followed by the format strings of the
      present filters, numbered `$1`, `$2`, ... in order, separated by spaces. */
  lemma QueryTextShape(f: Filters)
    ensures var p := Present(f);
            QueryText(Plan(f)) ==
              BaseQuery + Join(seq(|p|, i requires 0 <= i < |p| => TemplateOf(p[i]) + Decimal(i + 1)), " ")
  {
    var p := Present(f);
    ConditionsBindArguments(f);
    assert RenderAll(Plan(f)) == seq(|p|, i requires 0 <= i < |p| => TemplateOf(p[i]) + Decimal(i + 1));
  }

  lemma {:induction false} SelectSameShape(f: Filters, g: Filters, ds: seq<Dimension>)
    requires SameShape(f, g)
    ensures Select(f, ds) == Select(g, ds)
  {
    if ds != [] {
      SelectSameShape(f, g, ds[1..]);
      assert (ValueOf(f, ds[0]) == []) == (ValueOf(g, ds[0]) == []);
    }
  }

  /** Filter values never reach the SQL text: two searches with the same
      filters set send the same text, whatever the values are. */
  lemma TextIgnoresValues(f: Filters, g: Filters)
    requires SameShape(f, g)
    ensures QueryText(Plan(f)) == QueryText(Plan(g))
    ensures |Args(f)| == |Args(g)|
  {
    SelectSameShape(f, g, Order);
  }

  lemma {:induction false} SelectEmpty(f: Filters, ds: seq<Dimension>)
    ensures Select(f, ds) == [] <==> forall i :: 0 <= i < |ds| ==> ValueOf(f, ds[i]) == []
  {
    if ds != [] {
      SelectEmpty(f, ds[1..]);
      assert forall i :: 1 <= i < |ds| ==> ds[i] == ds[1..][i - 1];
    }
  }

  /** No filter is set exactly when none takes part in the search. */
  lemma NoFiltersNonePresent(f: Filters)
    ensures NoFilters(f) <==> Present(f) == []
  {
    SelectEmpty(f, Order);
    var allEmpty := f.brandId == [] && f.modelId == [] && f.year == [] && f.price == [];
    assert NoFilters(f) <==> allEmpty by {
      assert ValueOf(f, BrandFilter) == f.brandId && ValueOf(f, ModelFilter) == f.modelId;
      assert ValueOf(f, YearFilter) == f.year && ValueOf(f, PriceFilter) == f.price;
    }
    assert (forall i :: 0 <= i < |Order| ==> ValueOf(f, Order[i]) == []) <==> allEmpty by {
      assert Order[0] == BrandFilter && Order[1] == ModelFilter;
      assert Order[2] == YearFilter && Order[3] == PriceFilter;
    }
  }

  /** With every filter empty the search sends exactly the base query and no
      argument, and only then. */
  lemma NoFiltersBaseQuery(f: Filters)
    ensures NoFilters(f) <==> Args(f) == []
    ensures NoFilters(f) <==> QueryText(Plan(f)) == BaseQuery
  {
    NoFiltersNonePresent(f);
    var parts := RenderAll(Plan(f));
    JoinEmpty(parts, " ");
    if parts != [] {
      assert parts[0][..4] == "AND ";
    }
    assert |Args(f)| == |Present(f)| == |parts|;
    assert |QueryText(Plan(f))| == |BaseQuery| + |Join(parts, " ")|;
  }

  /** The filters a search request carries: the first value of each of its
      query parameters `brand`, `model`, `year` and `price` (empty when absent). */
  function RequestFilters(target: Bytes): (g: Filters)
    ensures var q := QueryString.ParseQuery(QueryString.RawQuery(target));
            && QueryString.FirstValue(q, Encode("brand"), g.brandId)
            && QueryString.FirstValue(q, Encode("model"), g.modelId)
            && QueryString.FirstValue(q, Encode("year"), g.year)
            && QueryString.FirstValue(q, Encode("price"), g.price)
  {
    var q := QueryString.ParseQuery(QueryString.RawQuery(target));
    Filters(QueryString.Get(q, Encode("brand")), QueryString.Get(q, Encode("model")),
            QueryString.Get(q, Encode("year")), QueryString.Get(q, Encode("price")))
  }

  /** The search: build the query, run it with its arguments, collect the cars. */
  method GetCars(db: Database<Car>, brandId: Bytes, modelId: Bytes, year: Bytes, price: Bytes)
    returns (r: Result<seq<Car>, Failure>)
    ensures var f := Filters(brandId, modelId, year, price);
            r == Read(db(QueryText(Plan(f)), Args(f)))
  {
    var query, args := BuildSearchQuery(brandId, modelId, year, price);
    r := Fetch(db(query, args));
  }
}
