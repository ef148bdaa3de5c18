/**
  `MultiBundleCSVFilter`: several bundles in one CSV file (RFC 4180) with
  the header `module,key,value`. `parse` groups the records by module, one
  auto-numbering builder per module; `write` prints the modules in sorted
  order, each with its strings in bundle order; `merge` copies the records
  of a base file, replacing a value when the bundle of its module holds a
  string with its key.
 */
module MultiBundleCsv {
  import opened Wrappers
  import opened JavaText
  import opened ResourceStrings
  import opened LanguageBundles
  import opened LanguageBundleBuilders
  import opened UtilsMaps

  /** A record after the header: its `module`, `key` and `value` columns. */
  datatype CsvRecord = CsvRecord(moduleName: JString, key: JString, value: JString)

  /** The records of module `m`, in order. */
  function RecordsOf(records: seq<CsvRecord>, m: JString): (r: seq<CsvRecord>)
    decreases |records|
  {
    if records == [] then []
    else
      var last := records[|records| - 1];
      RecordsOf(records[..|records| - 1], m) + (if last.moduleName == m then [last] else [])
  }

  // ---------------------------------------------------------------------
  // parse

  /** The strings the builders hold once the record `r` is added: its module's builder, made if needed, adds it with its next number. */
  function AddRecord(g: map<JString, seq<ResourceString>>, r: CsvRecord): (res: map<JString, seq<ResourceString>>) {
    var held := if r.moduleName in g then g[r.moduleName] else [];
    g[r.moduleName := held + [ResourceString(r.key, r.value, |held| + 1, None, None)]]
  }

  /** The strings the builders of `parse` hold after `records`. */
  function Grouped(records: seq<CsvRecord>): (r: map<JString, seq<ResourceString>>)
    decreases |records|
  {
    if records == [] then map[] else AddRecord(Grouped(records[..|records| - 1]), records[|records| - 1])
  }

  /**
    `parse` makes a bundle for exactly the modules that have records; the
    bundle of a module holds the keys and values of its records, in
    order, numbered from 1.
   */
  lemma {:induction false} GroupedRecords(records: seq<CsvRecord>, m: JString)
    ensures m in Grouped(records) <==> RecordsOf(records, m) != []
    ensures m in Grouped(records) ==>
      var rs := RecordsOf(records, m);
      |Grouped(records)[m]| == |rs| &&
      forall k | 0 <= k < |rs| :: Grouped(records)[m][k] == ResourceString(rs[k].key, rs[k].value, k + 1, None, None)
    decreases |records|
  {
    if records != [] {
      var init := records[..|records| - 1];
      GroupedRecords(init, m);
    }
  }

  /** The builder is in auto mode and holds the strings `strings`, no notes and no language code. */
  predicate Holds(b: LanguageBundleBuilder, strings: seq<ResourceString>)
    reads b
  {
    b.Valid() && b.autoSequenceNumbers && b.resourceStrings == strings && b.notes == [] && b.embeddedLanguageCode.None?
  }

  /** Each module's builder holds the strings `g` gives it, and no two modules share one. */
  ghost predicate Hold(builders: map<JString, LanguageBundleBuilder>, g: map<JString, seq<ResourceString>>)
    reads set m | m in builders :: builders[m]
  {
    builders.Keys == g.Keys &&
    (forall m | m in builders :: Holds(builders[m], g[m])) &&
    (forall m, n | m in builders && n in builders && m != n :: builders[m] != builders[n])
  }

  /** The bundles `parse` returns hold the strings of `Grouped`, no notes and no language code. */
  method Parse(records: seq<CsvRecord>) returns (result: map<JString, LanguageBundle>)
    ensures result.Keys == Grouped(records).Keys
    ensures forall m | m in result :: fresh(result[m]) && result[m].resourceStrings == Some(Grouped(records)[m])
    ensures forall m | m in result :: result[m].notes == Some([]) && result[m].embeddedLanguageCode.None?
  {
    var builders: map<JString, LanguageBundleBuilder> := map[];
    var i := 0;
    while i < |records|
      invariant 0 <= i <= |records|
      invariant Hold(builders, Grouped(records[..i]))
      invariant forall m | m in builders :: fresh(builders[m])
    {
      assert records[..i + 1][..i] == records[..i] && records[..i + 1][i] == records[i];
      builders := AddToBuilder(builders, Grouped(records[..i]), records[i]);
      i := i + 1;
    }
    assert records[..i] == records;
    result := BuildAll(builders, Grouped(records));
  }

  /** The body of the record loop: the module's builder, made at the module's first record, adds the key and value. */
  method AddToBuilder(builders: map<JString, LanguageBundleBuilder>, g: map<JString, seq<ResourceString>>, r: CsvRecord)
    returns (next: map<JString, LanguageBundleBuilder>)
    requires Hold(builders, g)
    modifies set m | m in builders :: builders[m]
    ensures Hold(next, AddRecord(g, r))
    ensures forall m | m in next :: if m in builders then next[m] == builders[m] else fresh(next[m])
  {
    if r.moduleName in builders {
      next := builders;
      AddToExisting(builders, g, r);
    } else {
      var b := new LanguageBundleBuilder(true);
      b.AddKeyValue(r.key, r.value);
      next := builders[r.moduleName := b];
      forall m, n | m in next && n in next && m != n ensures next[m] != next[n] {
        if m != r.moduleName && n != r.moduleName {
          assert next[m] == builders[m] && next[n] == builders[n];
        }
      }
    }
  }

  /** The module's builder exists: it alone adds the key and value. */
  method AddToExisting(builders: map<JString, LanguageBundleBuilder>, g: map<JString, seq<ResourceString>>, r: CsvRecord)
    requires Hold(builders, g) && r.moduleName in builders
    modifies builders[r.moduleName]
    ensures Hold(builders, AddRecord(g, r))
  {
    var b := builders[r.moduleName];
    b.AddKeyValue(r.key, r.value);
    forall m | m in builders && m != r.moduleName ensures Holds(builders[m], AddRecord(g, r)[m]) {
      assert builders[m] != b;
    }
  }

  /** The loop copying the builders' bundles into the sorted result map. */
  method BuildAll(builders: map<JString, LanguageBundleBuilder>, g: map<JString, seq<ResourceString>>)
    returns (result: map<JString, LanguageBundle>)
    requires Hold(builders, g)
    ensures result.Keys == g.Keys
    ensures forall m | m in result :: fresh(result[m]) && result[m].resourceStrings == Some(g[m])
    ensures forall m | m in result :: result[m].notes == Some([]) && result[m].embeddedLanguageCode.None?
  {
    result := map[];
    var todo := builders.Keys;
    while todo != {}
      invariant todo <= builders.Keys
      invariant result.Keys == builders.Keys - todo
      invariant forall m | m in result :: fresh(result[m]) && result[m].resourceStrings == Some(g[m])
      invariant forall m | m in result :: result[m].notes == Some([]) && result[m].embeddedLanguageCode.None?
      decreases todo
    {
      var m :| m in todo;
      var bundle := builders[m].Build();
      result := result[m := bundle];
      todo := todo - {m};
    }
  }

  // ---------------------------------------------------------------------
  // write

  /** Each module to its bundle's strings, or `None` when they were never set. */
  function StringsOf(bundles: map<JString, LanguageBundle>): (strings: map<JString, Option<seq<ResourceString>>>)
    reads bundles.Values
    ensures strings.Keys == bundles.Keys
  {
    map m | m in bundles :: bundles[m].resourceStrings
  }

  /** Every two modules are in the strict order of `String.compareTo`, as a `TreeMap` iterates its keys. */
  predicate Ascending(ms: seq<JString>) {
    forall i, j | 0 <= i < j < |ms| :: CompareStrings(ms[i], ms[j]) < 0
  }

  /** `m` comes first among the modules of `s`. */
  predicate Least(m: JString, s: set<JString>) {
    m in s && forall x | x in s :: CompareStrings(m, x) <= 0
  }

  lemma {:induction false} LeastExists(s: set<JString>)
    requires s != {}
    ensures exists m :: Least(m, s)
    decreases |s|
  {
    var y :| y in s;
    CompareStringsZero(y, y);
    if s - {y} == {} {
      assert s == {y};
      assert Least(y, s);
    } else {
      LeastExists(s - {y});
      var m :| Least(m, s - {y});
      if CompareStrings(m, y) <= 0 {
        assert Least(m, s);
      } else {
        CompareStringsAntisymmetric(m, y);
        forall x | x in s ensures CompareStrings(y, x) <= 0 {
          if x != y {
            CompareStringsTransitive(y, m, x);
          }
        }
        assert Least(y, s);
      }
    }
  }

  lemma LeastUnique(m: JString, n: JString, s: set<JString>)
    requires Least(m, s) && Least(n, s)
    ensures m == n
  {
    CompareStringsAntisymmetric(m, n);
    CompareStringsZero(m, n);
  }

  /** The modules of `s` in the order a `TreeMap` iterates them: the least one first. */
  ghost function SortedModules(s: set<JString>): (ms: seq<JString>)
    ensures forall i | 0 <= i < |ms| :: ms[i] in s
    decreases |s|
  {
    if s == {} then []
    else
      LeastExists(s);
      var m :| Least(m, s);
      [m] + SortedModules(s - {m})
  }

  /** The order lists every module of `s` once, ascending. */
  lemma {:induction false} SortedModulesAscending(s: set<JString>)
    ensures Ascending(SortedModules(s))
    ensures forall m :: m in SortedModules(s) <==> m in s
    decreases |s|
  {
    if s != {} {
      LeastExists(s);
      var m :| Least(m, s);
      SortedModulesLeast(s, m);
      var rest := SortedModules(s - {m});
      SortedModulesAscending(s - {m});
      forall j | 0 <= j < |rest| ensures CompareStrings(m, rest[j]) < 0 {
        assert rest[j] in s - {m};
        CompareStringsZero(m, rest[j]);
      }
      AscendingCons(m, rest);
    }
  }

  lemma AscendingCons(m: JString, rest: seq<JString>)
    requires Ascending(rest)
    requires forall j | 0 <= j < |rest| :: CompareStrings(m, rest[j]) < 0
    ensures Ascending([m] + rest)
  {
    var ms := [m] + rest;
    forall i, j | 0 <= i < j < |ms| ensures CompareStrings(ms[i], ms[j]) < 0 {
      assert ms[j] == rest[j - 1];
      if i > 0 {
        assert ms[i] == rest[i - 1];
      }
    }
  }

  /** The order of `s` starts with its least module. */
  lemma SortedModulesLeast(s: set<JString>, m: JString)
    requires Least(m, s)
    ensures SortedModules(s) == [m] + SortedModules(s - {m})
  {
    var n :| Least(n, s) && SortedModules(s) == [n] + SortedModules(s - {n});
    LeastUnique(m, n, s);
  }

  /** Iterating a `TreeMap` made from the bundles: the modules taken least first. */
  method SortedKeys(keys: set<JString>) returns (order: seq<JString>)
    ensures order == SortedModules(keys)
  {
    order := [];
    var todo := keys;
    while todo != {}
      invariant order + SortedModules(todo) == SortedModules(keys)
      decreases |todo|
    {
      LeastExists(todo);
      var m :| Least(m, todo);
      SortedModulesLeast(todo, m);
      order := order + [m];
      todo := todo - {m};
    }
  }

  /** The records printed for module `m` with the strings `s`. */
  function RecordsFor(m: JString, s: seq<ResourceString>): (r: seq<CsvRecord>) {
    seq(|s|, k requires 0 <= k < |s| => CsvRecord(m, s[k].key, s[k].value))
  }

  /**
    What `write` prints after the header for the modules of `order`: each
    module's strings in the order of `getSortedResourceStrings`; a module
    whose strings were never set throws.
   */
  function WrittenRecords(order: seq<JString>, strings: map<JString, Option<seq<ResourceString>>>): (r: Result<seq<CsvRecord>>)
    requires forall i | 0 <= i < |order| :: order[i] in strings
  {
    if order == [] then Ok([])
    else match strings[order[0]]
      case None => Err(NullPointerException)
      case Some(s) => Then(RecordsFor(order[0], SortedCopy(s)), WrittenRecords(order[1..], strings))
  }

  /** `write`: the records of every module, modules in `TreeMap` order. */
  method Write(bundles: map<JString, LanguageBundle>) returns (r: Result<seq<CsvRecord>>)
    ensures r == WrittenRecords(SortedModules(bundles.Keys), StringsOf(bundles))
  {
    var order := SortedKeys(bundles.Keys);
    ghost var strings := StringsOf(bundles);
    var out: seq<CsvRecord> := [];
    var i := 0;
    assert order[0..] == order;
    ThenNothing(WrittenRecords(order, strings));
    while i < |order|
      invariant 0 <= i <= |order|
      invariant Then(out, WrittenRecords(order[i..], strings)) == WrittenRecords(order, strings)
    {
      var records := WriteModule(order[i], bundles[order[i]]);
      if records.Err? {
        WrittenAt(order, strings, i);
        return records;
      }
      WrittenAt(order, strings, i);
      ThenThen(out, records.value, WrittenRecords(order[i + 1..], strings));
      out := out + records.value;
      i := i + 1;
    }
    assert out + [] == out;
    r := Ok(out);
  }

  /** The body of the module loop of `write`: the records of the bundle's sorted strings. */
  method WriteModule(name: JString, bundle: LanguageBundle) returns (r: Result<seq<CsvRecord>>)
    ensures r == WrittenRecords([name], map[name := bundle.resourceStrings])
  {
    var sorted := bundle.GetSortedResourceStrings();
    if sorted.Err? {
      return Err(sorted.thrown);
    }
    var records := PrintRecords(name, sorted.value);
    assert records + [] == records;
    r := Ok(records);
  }

  /** The inner loop of `write`: one record per string, in order. */
  method PrintRecords(name: JString, s: seq<ResourceString>) returns (records: seq<CsvRecord>)
    ensures records == RecordsFor(name, s)
  {
    records := [];
    var j := 0;
    while j < |s|
      invariant 0 <= j <= |s|
      invariant records == RecordsFor(name, s[..j])
    {
      records := records + [CsvRecord(name, s[j].key, s[j].value)];
      j := j + 1;
    }
    assert s[..j] == s;
  }

  /** What `write` prints from the `i`-th module on: that module's records, then the rest. */
  lemma WrittenAt(order: seq<JString>, strings: map<JString, Option<seq<ResourceString>>>, i: nat)
    requires forall k | 0 <= k < |order| :: order[k] in strings
    requires i < |order|
    ensures var one := WrittenRecords([order[i]], map[order[i] := strings[order[i]]]);
      WrittenRecords(order[i..], strings) == if one.Err? then one else Then(one.value, WrittenRecords(order[i + 1..], strings))
  {
    assert order[i..][0] == order[i];
    assert order[i..][1..] == order[i + 1..];
    if strings[order[i]].Some? {
      var head := RecordsFor(order[i], SortedCopy(strings[order[i]].value));
      assert head + [] == head;
    }
  }

  /** `write` throws exactly when some bundle's strings were never set. */
  lemma {:induction false} WrittenFails(order: seq<JString>, strings: map<JString, Option<seq<ResourceString>>>)
    requires forall i | 0 <= i < |order| :: order[i] in strings
    ensures WrittenRecords(order, strings).Err? <==> exists i | 0 <= i < |order| :: strings[order[i]].None?
    ensures WrittenRecords(order, strings).Err? ==> WrittenRecords(order, strings) == Err(NullPointerException)
    decreases |order|
  {
    if order != [] {
      WrittenFails(order[1..], strings);
      if strings[order[0]].Some? && exists i | 0 <= i < |order| :: strings[order[i]].None? {
        var i :| 0 <= i < |order| && strings[order[i]].None?;
        assert order[1..][i - 1] == order[i];
      }
    }
  }

  lemma {:induction false} RecordsOfAppend(a: seq<CsvRecord>, b: seq<CsvRecord>, m: JString)
    ensures RecordsOf(a + b, m) == RecordsOf(a, m) + RecordsOf(b, m)
    decreases |b|
  {
    if b == [] {
      assert a + b == a;
    } else {
      var init := b[..|b| - 1];
      assert (a + b)[..|a + b| - 1] == a + init;
      RecordsOfAppend(a, init, m);
    }
  }

  /** Module `m`'s records among those printed for module `n`: all of them when the two are the same, none otherwise. */
  lemma {:induction false} RecordsOfFor(n: JString, s: seq<ResourceString>, m: JString)
    ensures RecordsOf(RecordsFor(n, s), m) == if m == n then RecordsFor(n, s) else []
    decreases |s|
  {
    if s != [] {
      var init := s[..|s| - 1];
      assert RecordsFor(n, s)[..|s| - 1] == RecordsFor(n, init);
      RecordsOfFor(n, init, m);
    }
  }

  /** In what `write` prints for distinct modules, a module's records are those of its sorted strings. */
  lemma {:induction false} WrittenRecordsOf(order: seq<JString>, strings: map<JString, Option<seq<ResourceString>>>, m: JString)
    requires forall i | 0 <= i < |order| :: order[i] in strings
    requires forall i, j | 0 <= i < j < |order| :: order[i] != order[j]
    requires WrittenRecords(order, strings).Ok?
    ensures m !in order ==> RecordsOf(WrittenRecords(order, strings).value, m) == []
    ensures m in order ==> strings[m].Some? && RecordsOf(WrittenRecords(order, strings).value, m) == RecordsFor(m, SortedCopy(strings[m].value))
    decreases |order|
  {
    if order != [] {
      var rest := order[1..];
      var head := RecordsFor(order[0], SortedCopy(strings[order[0]].value));
      assert WrittenRecords(order, strings) == Then(head, WrittenRecords(rest, strings));
      assert forall i, j | 0 <= i < j < |rest| :: rest[i] != rest[j] by {
        forall i, j | 0 <= i < j < |rest| ensures rest[i] != rest[j] {
          assert rest[i] == order[i + 1] && rest[j] == order[j + 1];
        }
      }
      WrittenRecordsOf(rest, strings, m);
      RecordsOfAppend(head, WrittenRecords(rest, strings).value, m);
      RecordsOfFor(order[0], SortedCopy(strings[order[0]].value), m);
      if m == order[0] {
        assert m !in rest by {
          forall i | 0 <= i < |rest| ensures rest[i] != m {
            assert rest[i] == order[i + 1];
          }
        }
      }
    }
  }

  /**
    Parsing what `write` printed gives back every module with strings:
    its keys and values in the order of `getSortedResourceStrings`,
    numbered from 1. A module with no strings prints no record and so is
    not read back.
   */
  lemma WriteThenParse(strings: map<JString, Option<seq<ResourceString>>>, m: JString)
    requires WrittenRecords(SortedModules(strings.Keys), strings).Ok?
    ensures var parsed := Grouped(WrittenRecords(SortedModules(strings.Keys), strings).value);
      (m in parsed <==> m in strings && strings[m].Some? && strings[m].value != []) &&
      (m in parsed ==>
        var sorted := SortedCopy(strings[m].value);
        |parsed[m]| == |sorted| &&
        forall k | 0 <= k < |sorted| :: parsed[m][k] == ResourceString(sorted[k].key, sorted[k].value, k + 1, None, None))
  {
    var order := SortedModules(strings.Keys);
    var out := WrittenRecords(order, strings).value;
    SortedModulesDistinct(strings.Keys);
    WrittenRecordsOf(order, strings, m);
    GroupedRecords(out, m);
    if m in strings && strings[m].Some? {
      SortedCopyLength(strings[m].value);
    }
  }

  /** `getSortedResourceStrings` keeps every string. */
  lemma SortedCopyLength(s: seq<ResourceString>)
    ensures |SortedCopy(s)| == |s|
  {
    SortedCopySorted(s);
    assert |SortedCopy(s)| == |multiset(SortedCopy(s))|;
  }

  /** The modules in sorted order are all different, and they are the modules of `s`. */
  lemma SortedModulesDistinct(s: set<JString>)
    ensures forall m :: m in SortedModules(s) <==> m in s
    ensures var order := SortedModules(s);
      forall i, j | 0 <= i < j < |order| :: order[i] != order[j]
  {
    var order := SortedModules(s);
    SortedModulesAscending(s);
    forall i, j | 0 <= i < j < |order| ensures order[i] != order[j] {
      CompareStringsZero(order[i], order[j]);
    }
  }

  /** `write` never prints a module after one that follows it. */
  lemma {:induction false} WrittenInOrder(order: seq<JString>, strings: map<JString, Option<seq<ResourceString>>>, i: nat, j: nat)
    requires forall k | 0 <= k < |order| :: order[k] in strings
    requires Ascending(order)
    requires WrittenRecords(order, strings).Ok?
    requires i <= j < |WrittenRecords(order, strings).value|
    ensures var out := WrittenRecords(order, strings).value;
      CompareStrings(out[i].moduleName, out[j].moduleName) <= 0
    decreases |order|
  {
    var out := WrittenRecords(order, strings).value;
    var head := RecordsFor(order[0], SortedCopy(strings[order[0]].value));
    var tail := WrittenRecords(order[1..], strings).value;
    assert out == head + tail;
    if j < |head| {
      CompareStringsZero(out[i].moduleName, out[j].moduleName);
    } else if i < |head| {
      WrittenModules(order[1..], strings, j - |head|);
      var k :| 0 <= k < |order[1..]| && tail[j - |head|].moduleName == order[1..][k];
      assert order[1..][k] == order[k + 1];
    } else {
      WrittenInOrder(order[1..], strings, i - |head|, j - |head|);
    }
  }

  /** Every record `write` prints belongs to one of the modules. */
  lemma {:induction false} WrittenModules(order: seq<JString>, strings: map<JString, Option<seq<ResourceString>>>, i: nat)
    requires forall k | 0 <= k < |order| :: order[k] in strings
    requires WrittenRecords(order, strings).Ok?
    requires i < |WrittenRecords(order, strings).value|
    ensures exists k | 0 <= k < |order| :: WrittenRecords(order, strings).value[i].moduleName == order[k]
    decreases |order|
  {
    var out := WrittenRecords(order, strings).value;
    var head := RecordsFor(order[0], SortedCopy(strings[order[0]].value));
    var tail := WrittenRecords(order[1..], strings).value;
    assert out == head + tail;
    if i >= |head| {
      WrittenModules(order[1..], strings, i - |head|);
      var k :| 0 <= k < |order[1..]| && tail[i - |head|].moduleName == order[1..][k];
      assert order[1..][k] == order[k + 1];
    }
  }

  // ---------------------------------------------------------------------
  // merge

  /** The strings of the bundles whose strings were set. */
  function Present(strings: map<JString, Option<seq<ResourceString>>>): (present: map<JString, seq<ResourceString>>)
    ensures forall m | m in present :: m in strings && strings[m] == Some(present[m])
  {
    map m | m in strings && strings[m].Some? :: strings[m].value
  }

  /** The key-value map `merge` builds for every module: each key to the value of the module's last string with it. */
  function KvMaps(strings: map<JString, seq<ResourceString>>): (kv: map<JString, map<JString, JString>>)
    ensures kv.Keys == strings.Keys
  {
    map m | m in strings :: MapByKey(strings[m], ValueOf)
  }

  /** A base record as `merge` prints it. */
  function MergedRecord(kv: map<JString, map<JString, JString>>, r: CsvRecord): (res: CsvRecord) {
    if r.moduleName in kv && r.key in kv[r.moduleName] then r.(value := kv[r.moduleName][r.key]) else r
  }

  /**
    `merge`: one record per base record, in order; a record keeps its
    module and key and takes the value its module's bundle has for the
    key. A bundle whose strings were never set throws before anything is
    printed.
   */
  method Merge(base: seq<CsvRecord>, bundles: map<JString, LanguageBundle>) returns (r: Result<seq<CsvRecord>>)
    ensures (exists m | m in bundles :: bundles[m].resourceStrings.None?) <==> r.Err?
    ensures r.Err? ==> r == Err(NullPointerException)
    ensures r.Ok? ==>
      var kv := KvMaps(Present(StringsOf(bundles)));
      |r.value| == |base| && forall k | 0 <= k < |base| :: r.value[k] == MergedRecord(kv, base[k])
  {
    var kvMaps := KvMapsOf(bundles);
    if kvMaps.Err? {
      return Err(kvMaps.thrown);
    }
    var out: seq<CsvRecord> := [];
    var i := 0;
    while i < |base|
      invariant 0 <= i <= |base|
      invariant |out| == i && forall k | 0 <= k < i :: out[k] == MergedRecord(kvMaps.value, base[k])
    {
      var record := base[i];
      var value := record.value;
      if record.moduleName in kvMaps.value {
        var moduleKv := kvMaps.value[record.moduleName];
        if record.key in moduleKv {
          value := moduleKv[record.key];
        }
      }
      out := out + [CsvRecord(record.moduleName, record.key, value)];
      i := i + 1;
    }
    r := Ok(out);
  }

  /** The first loop of `merge`: a key-value map per bundle, in the bundles' iteration order. */
  method KvMapsOf(bundles: map<JString, LanguageBundle>) returns (r: Result<map<JString, map<JString, JString>>>)
    ensures (exists m | m in bundles :: bundles[m].resourceStrings.None?) <==> r.Err?
    ensures r.Err? ==> r == Err(NullPointerException)
    ensures r.Ok? ==> r.value == KvMaps(Present(StringsOf(bundles)))
  {
    var kvMaps: map<JString, map<JString, JString>> := map[];
    var todo := bundles.Keys;
    while todo != {}
      invariant todo <= bundles.Keys
      invariant kvMaps.Keys == bundles.Keys - todo
      invariant forall m | m in kvMaps :: bundles[m].resourceStrings.Some? && kvMaps[m] == MapByKey(bundles[m].resourceStrings.value, ValueOf)
      decreases todo
    {
      var m :| m in todo;
      var strings := bundles[m].GetResourceStrings();
      if strings.Err? {
        return Err(strings.thrown);
      }
      var kvMap := PutAll(strings.value, ValueOf);
      kvMaps := kvMaps[m := kvMap];
      todo := todo - {m};
    }
    r := Ok(kvMaps);
  }

  /**
    A merged record keeps the base record's module and key; its value is
    replaced exactly when the module has a bundle holding a string with
    the key, and then by the value of the last such string.
   */
  lemma MergedValue(strings: map<JString, seq<ResourceString>>, r: CsvRecord)
    ensures var merged := MergedRecord(KvMaps(strings), r);
      merged.moduleName == r.moduleName && merged.key == r.key &&
      ((r.moduleName in strings && exists i | 0 <= i < |strings[r.moduleName]| :: strings[r.moduleName][i].key == r.key) || merged.value == r.value) &&
      (r.moduleName in strings ==> forall i | 0 <= i < |strings[r.moduleName]| && strings[r.moduleName][i].key == r.key ::
        (forall j | i < j < |strings[r.moduleName]| :: strings[r.moduleName][j].key != r.key) ==> merged.value == strings[r.moduleName][i].value)
  {
    if r.moduleName in strings {
      var s := strings[r.moduleName];
      MapByKeyKeys(s, ValueOf);
      forall i | 0 <= i < |s| && s[i].key == r.key && (forall j | i < j < |s| :: s[j].key != r.key)
        ensures MergedRecord(KvMaps(strings), r).value == s[i].value
      {
        MapByKeyLastWins(s, ValueOf, i);
      }
    }
  }
}
