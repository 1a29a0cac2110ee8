/** The DBMS listing procedures: `dbms.listConfig` (the non-internal
    settings whose name contains a search string, ignoring case, sorted by
    name), `dbms.procedures` and `dbms.functions` (every registered
    procedure or user function, sorted by name). */
module BuiltInDbmsProcedures {
  import opened Results
  import opened Strings
  import opened Sorting

  /** `s` mapped element-wise through `f`. */
  function Map<A, B>(xs: seq<A>, f: A -> B): (r: seq<B>)
    ensures |r| == |xs|
    ensures forall i | 0 <= i < |xs| :: r[i] == f(xs[i])
  {
    seq(|xs|, i requires 0 <= i < |xs| => f(xs[i]))
  }

  /** Mapping distributes over concatenation. */
  lemma MapConcat<A, B>(a: seq<A>, b: seq<A>, f: A -> B)
    ensures Map(a + b, f) == Map(a, f) + Map(b, f)
  {
  }

  /** Mapping two permutations of each other gives permutations of each other. */
  lemma {:induction false} MapPermutation<A, B>(xs: seq<A>, ys: seq<A>, f: A -> B)
    requires multiset(xs) == multiset(ys)
    ensures multiset(Map(xs, f)) == multiset(Map(ys, f))
    decreases |xs|
  {
    if xs != [] {
      var x := xs[0];
      assert x in multiset(ys);
      var k :| 0 <= k < |ys| && ys[k] == x;
      var rest := ys[..k] + ys[k + 1..];
      assert ys == ys[..k] + [x] + ys[k + 1..];
      assert xs == [x] + xs[1..];
      assert multiset(ys) == multiset(ys[..k]) + multiset{x} + multiset(ys[k + 1..]);
      assert multiset(rest) == multiset(ys[..k]) + multiset(ys[k + 1..]);
      assert multiset(xs) == multiset{x} + multiset(xs[1..]);
      assert multiset(rest) == multiset(ys) - multiset{x};
      assert multiset(xs[1..]) == multiset(xs) - multiset{x};
      MapPermutation(xs[1..], rest, f);
      MapConcat([x], xs[1..], f);
      MapConcat(ys[..k] + [x], ys[k + 1..], f);
      MapConcat(ys[..k], [x], f);
      MapConcat(ys[..k], ys[k + 1..], f);
    } else {
      assert ys == [];
    }
  }

  /** Mapping keeps an order whose key the mapping carries over. */
  lemma MapSorted<A, B>(xs: seq<A>, f: A -> B, keyA: A -> string, keyB: B -> string)
    requires SortedBy(xs, keyA)
    requires forall x :: keyB(f(x)) == keyA(x)
    ensures SortedBy(Map(xs, f), keyB)
  {
  }

  /** The elements of `xs` that satisfy `p`, in order. */
  function Filter<T(!new)>(xs: seq<T>, p: T -> bool): (r: seq<T>)
    ensures forall x :: x in r <==> x in xs && p(x)
    ensures |r| <= |xs|
  {
    if xs == [] then []
    else
      var tail := Filter(xs[1..], p);
      assert xs == [xs[0]] + xs[1..];
      if p(xs[0]) then [xs[0]] + tail else tail
  }

  /** A configuration setting: its name, description and current value
      (as the text the listing shows), and whether it is internal. */
  datatype ConfigValue = ConfigValue(name: string, description: string, value: Option<string>, internal: bool)

  /** A row of `dbms.listConfig`. */
  datatype ConfigResult = ConfigResult(name: string, description: string, value: Option<string>)

  /** `new ConfigResult(configValue)`. */
  function ConfigResultOf(c: ConfigValue): (r: ConfigResult)
    ensures r.name == c.name
  {
    ConfigResult(c.name, c.description, c.value)
  }

  function ResultName(r: ConfigResult): string
  {
    r.name
  }

  /** The row filter: the setting's name, lower-cased, contains the
      lower-cased search string. */
  predicate NameMatches(r: ConfigResult, searchString: string)
  {
    Contains(ToLower(r.name), ToLower(searchString))
  }

  /** A setting `listConfig` returns a row for. */
  predicate Listed(c: ConfigValue, searchString: string)
  {
    !c.internal && NameMatches(ConfigResultOf(c), searchString)
  }

  /** The row comes from a setting of `values` that is not internal. */
  ghost predicate RowOfVisibleSetting(row: ConfigResult, values: seq<ConfigValue>)
  {
    exists c | c in values :: !c.internal && ConfigResultOf(c) == row
  }

  /** The filters of `listConfig`, as values. */
  predicate Visible(c: ConfigValue)
  {
    !c.internal
  }

  function RowFilter(searchString: string): ConfigResult -> bool
  {
    row => NameMatches(row, searchString)
  }

  function SettingNameFilter(searchString: string): ConfigValue -> bool
  {
    c => NameMatches(ConfigResultOf(c), searchString)
  }

  function ListedFilter(searchString: string): ConfigValue -> bool
  {
    c => Listed(c, searchString)
  }

  /** `listConfig(searchString)`: internal settings are dropped, settings
      become rows, rows whose name does not contain the search string
      (ignoring case) are dropped, and the rest are sorted by name. */
  function ListConfig(values: seq<ConfigValue>, searchString: string): (r: seq<ConfigResult>)
    ensures SortedBy(r, ResultName)
    ensures forall i | 0 <= i < |r| ::
              && NameMatches(r[i], searchString)
              && RowOfVisibleSetting(r[i], values)
    ensures forall c | c in values && Listed(c, searchString) :: ConfigResultOf(c) in r
    ensures multiset(r) == multiset(Map(Filter(values, ListedFilter(searchString)), ConfigResultOf))
  {
    var visible := Filter(values, Visible);
    var rows := Map(visible, ConfigResultOf);
    var matching := Filter(rows, RowFilter(searchString));
    var r := SortBy(matching, ResultName);
    ListConfigContents(values, searchString);
    ListedRows(values, searchString, r);
    r
  }

  /** A permutation of the rows of the listed settings has a row for every
      listed setting and only rows of listed settings. */
  lemma ListedRows(values: seq<ConfigValue>, searchString: string, r: seq<ConfigResult>)
    requires multiset(r) == multiset(Map(Filter(values, ListedFilter(searchString)), ConfigResultOf))
    ensures forall i | 0 <= i < |r| ::
              && NameMatches(r[i], searchString)
              && RowOfVisibleSetting(r[i], values)
    ensures forall c | c in values && Listed(c, searchString) :: ConfigResultOf(c) in r
  {
    var listed := Filter(values, ListedFilter(searchString));
    PermutationOfMap(listed, ConfigResultOf, r);
    forall i | 0 <= i < |r|
      ensures && NameMatches(r[i], searchString)
              && RowOfVisibleSetting(r[i], values)
    {
      var c :| c in listed && ConfigResultOf(c) == r[i];
      assert c in values && ListedFilter(searchString)(c);
      assert Listed(c, searchString);
      assert c in values && !c.internal && ConfigResultOf(c) == r[i];
      assert RowOfVisibleSetting(r[i], values);
      assert NameMatches(r[i], searchString);
    }
    forall c | c in values && Listed(c, searchString) ensures ConfigResultOf(c) in r {
      assert ListedFilter(searchString)(c);
      assert c in listed;
    }
  }

  /** A permutation of the image of `xs` under `f` holds the image of every
      element of `xs` and nothing else. */
  lemma PermutationOfMap<A, B>(xs: seq<A>, f: A -> B, r: seq<B>)
    requires multiset(r) == multiset(Map(xs, f))
    ensures forall x | x in xs :: f(x) in r
    ensures forall i | 0 <= i < |r| :: exists x | x in xs :: f(x) == r[i]
  {
    var image := Map(xs, f);
    forall x | x in xs ensures f(x) in r {
      var k :| 0 <= k < |xs| && xs[k] == x;
      assert image[k] in multiset(image);
    }
    forall i | 0 <= i < |r| ensures exists x | x in xs :: f(x) == r[i] {
      assert r[i] in multiset(image);
      var k :| 0 <= k < |image| && image[k] == r[i];
      assert xs[k] in xs;
    }
  }

  /** The first element is kept exactly when it passes. */
  lemma FilterHead<T(!new)>(xs: seq<T>, p: T -> bool)
    requires xs != []
    ensures Filter(xs, p) == (if p(xs[0]) then [xs[0]] else []) + Filter(xs[1..], p)
  {
  }

  /** Filtering rows after mapping is filtering settings before mapping. */
  lemma {:induction false} FilterMapCommute(values: seq<ConfigValue>, searchString: string)
    ensures Filter(Map(values, ConfigResultOf), RowFilter(searchString))
         == Map(Filter(values, SettingNameFilter(searchString)), ConfigResultOf)
    decreases |values|
  {
    if values != [] {
      FilterMapCommute(values[1..], searchString);
      var rows := Map(values, ConfigResultOf);
      var rest := Filter(values[1..], SettingNameFilter(searchString));
      assert rows[0] == ConfigResultOf(values[0]);
      assert rows[1..] == Map(values[1..], ConfigResultOf);
      assert Map([values[0]], ConfigResultOf) == [rows[0]];
      FilterHead(values, SettingNameFilter(searchString));
      FilterHead(rows, RowFilter(searchString));
      assert RowFilter(searchString)(rows[0]) == SettingNameFilter(searchString)(values[0]);
      if SettingNameFilter(searchString)(values[0]) {
        MapConcat([values[0]], rest, ConfigResultOf);
      }
    }
  }

  /** Dropping internal settings and then non-matching ones drops exactly
      the settings that are not listed. */
  lemma {:induction false} FilterTwice(values: seq<ConfigValue>, searchString: string)
    ensures Filter(Filter(values, Visible), SettingNameFilter(searchString))
         == Filter(values, ListedFilter(searchString))
    decreases |values|
  {
    if values != [] {
      FilterTwice(values[1..], searchString);
    }
  }

  /** The rows `listConfig` sorts are the rows of the listed settings. */
  lemma ListConfigContents(values: seq<ConfigValue>, searchString: string)
    ensures multiset(Filter(Map(Filter(values, Visible), ConfigResultOf), RowFilter(searchString)))
         == multiset(Map(Filter(values, ListedFilter(searchString)), ConfigResultOf))
  {
    FilterMapCommute(Filter(values, Visible), searchString);
    FilterTwice(values, searchString);
  }

  /** With the default empty search string every setting that is not
      internal is listed. */
  lemma EmptySearchListsAllVisible(values: seq<ConfigValue>)
    ensures forall c | c in values && !c.internal :: ConfigResultOf(c) in ListConfig(values, "")
  {
    forall c | c in values && !c.internal
      ensures Listed(c, "")
    {
      ContainsEmpty(ToLower(c.name));
    }
  }

  /** Filtering a sequence with one more element at the end. */
  lemma {:induction false} FilterSnoc<T(!new)>(xs: seq<T>, y: T, p: T -> bool)
    ensures Filter(xs + [y], p) == Filter(xs, p) + (if p(y) then [y] else [])
    decreases |xs|
  {
    if xs == [] {
      assert [y][1..] == [];
    } else {
      assert (xs + [y])[1..] == xs[1..] + [y];
      FilterSnoc(xs[1..], y, p);
    }
  }

  /** An internal setting changes nothing in the listing, whatever its name. */
  lemma InternalSettingAddsNothing(values: seq<ConfigValue>, c: ConfigValue, searchString: string)
    requires c.internal
    ensures ListConfig(values + [c], searchString) == ListConfig(values, searchString)
  {
    FilterSnoc(values, c, Visible);
    assert Filter(values + [c], Visible) == Filter(values, Visible);
  }

  /** The signature of a procedure or user function: its qualified name,
      its rendering (`toString`) and its optional description. */
  datatype Signature = Signature(name: string, text: string, description: Option<string>)

  /** A row of `dbms.procedures` (`ProcedureResult`) or `dbms.functions`
      (`FunctionResult`); both have the same three columns. */
  datatype SignatureResult = SignatureResult(name: string, signature: string, description: string)

  function SignatureName(s: Signature): string
  {
    s.name
  }

  function SignatureResultName(r: SignatureResult): string
  {
    r.name
  }

  /** `new ProcedureResult(signature)` / `new FunctionResult(signature)`:
      a missing description becomes the empty string. */
  function ResultOf(s: Signature): (r: SignatureResult)
    ensures r.name == s.name && r.signature == s.text
    ensures s.description.None? ==> r.description == ""
    ensures s.description.Some? ==> r.description == s.description.value
  {
    SignatureResult(s.name, s.text, if s.description.Some? then s.description.value else "")
  }

  /** `listProcedures()` and `listFunctions()`: every signature, sorted by
      name, turned into a row. */
  function ListSignatures(signatures: seq<Signature>): (r: seq<SignatureResult>)
    ensures |r| == |signatures|
    ensures SortedBy(r, SignatureResultName)
    ensures multiset(r) == multiset(Map(signatures, ResultOf))
  {
    var sorted := SortBy(signatures, SignatureName);
    MapPermutation(sorted, signatures, ResultOf);
    MapSorted(sorted, ResultOf, SignatureName, SignatureResultName);
    Map(sorted, ResultOf)
  }

  /** `listProcedures()`. */
  function ListProcedures(procedures: seq<Signature>): (r: seq<SignatureResult>)
    ensures |r| == |procedures| && SortedBy(r, SignatureResultName)
    ensures forall p | p in procedures :: ResultOf(p) in r
    ensures forall i | 0 <= i < |r| :: exists p | p in procedures :: ResultOf(p) == r[i]
  {
    var r := ListSignatures(procedures);
    PermutationOfMap(procedures, ResultOf, r);
    r
  }

  /** `listFunctions()`. */
  function ListFunctions(functions: seq<Signature>): (r: seq<SignatureResult>)
    ensures |r| == |functions| && SortedBy(r, SignatureResultName)
    ensures forall f | f in functions :: ResultOf(f) in r
    ensures forall i | 0 <= i < |r| :: exists f | f in functions :: ResultOf(f) == r[i]
  {
    var r := ListSignatures(functions);
    PermutationOfMap(functions, ResultOf, r);
    r
  }
}
