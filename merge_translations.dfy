/**
  The `merge-translations` command: for one bundle and one target language,
  each resource entry of the work instance is compared with the entry of
  the same key in the master instance and classified. An update copies the
  work translation to the master, as reviewed exactly when the two source
  values are equal; everything else is skipped with a reason.
 */
module MergeTranslations {
  import opened Wrappers
  import opened JavaText
  import opened ApproximateMatching

  /** What the command reads of a resource entry: `isReviewed`, `getSourceValue` and `getValue`. */
  datatype Summary = Summary(reviewed: bool, source: JString, translation: JString)

  /** The categories of the change log. */
  datatype Category =
    | UpdatedAsReviewed
    | UpdatedAsUnreviewed
    | SkippedSourceChanged
    | SkippedNoChanges
    | SkippedAlreadyReviewed
    | SkippedNotAvailable
    | UpdatedAsReviewedOverwritten
  {
    /** The categories under which an entry goes into the `updated` map and the change set. */
    predicate IsUpdate() {
      this == UpdatedAsReviewed || this == UpdatedAsUnreviewed || this == UpdatedAsReviewedOverwritten
    }

    /** The label the change log records. */
    function Name(): (r: JString) {
      match this
      case UpdatedAsReviewed => CAT_UPDATED_AS_REVIEWED
      case UpdatedAsUnreviewed => CAT_UPDATED_AS_UNREVIEWED
      case SkippedSourceChanged => CAT_SKIPPED_SOURCE_CHANGED
      case SkippedNoChanges => CAT_SKIPPED_NO_CHANGES
      case SkippedAlreadyReviewed => CAT_SKIPPED_ALREADY_REVIEWED
      case SkippedNotAvailable => CAT_SKIPPED_NOT_AVAILABLE
      case UpdatedAsReviewedOverwritten => CAT_UPDATED_AS_REVIEWED_OVERWRITTEN
    }
  }

  const CAT_UPDATED_AS_REVIEWED: JString := Lit("Updated/As reviewed")
  const CAT_UPDATED_AS_UNREVIEWED: JString := Lit("Updated/As unreviewed")
  const CAT_SKIPPED_SOURCE_CHANGED: JString := Lit("Skipped/Source changed")
  const CAT_SKIPPED_NO_CHANGES: JString := Lit("Skipped/No changes necessary")
  const CAT_SKIPPED_ALREADY_REVIEWED: JString := Lit("Skipped/Already reviewed")
  const CAT_SKIPPED_NOT_AVAILABLE: JString := Lit("Skipped/Not available")
  const CAT_UPDATED_AS_REVIEWED_OVERWRITTEN: JString := Lit("Updated/As reviewed - Overwritten")

  /** The resolved master entry of an update: its review flag and translation. */
  datatype Resolved = Resolved(reviewed: bool, translation: JString)

  /** One entry of the change log. */
  datatype ChangeInfo = ChangeInfo(category: Category, work: Summary, master: Option<Summary>, resolved: Option<Resolved>)

  /** A `ResourceEntryDataChangeSet`: the value and review flag written to the master. */
  datatype ChangeSet = ChangeSet(value: JString, reviewed: bool)

  /** The `--update-always` and `--includes-reviewed` flags. */
  datatype Options = Options(updateAlways: bool, includesReviewed: bool)

  /**
    The body of the entry loop: the category of a work entry given the
    master entry of the same key, if any, and the resolved master entry of
    an update.
   */
  function Classify(u: Unicode, opts: Options, work: Summary, master: Option<Summary>): (info: ChangeInfo)
    ensures info.work == work && info.master == master
    ensures info.category.IsUpdate() <==> info.resolved.Some?
    ensures info.resolved.Some? ==> info.resolved.value.translation == work.translation
  {
    if master.None? then ChangeInfo(SkippedNotAvailable, work, None, None)
    else
      var ms := master.value;
      var trsMatch := work.translation == ms.translation;
      if ms.reviewed then
        if !trsMatch && opts.includesReviewed then
          ChangeInfo(UpdatedAsReviewedOverwritten, work, master, Some(Resolved(true, work.translation)))
        else
          ChangeInfo(SkippedAlreadyReviewed, work, master, None)
      else
        var exactSrcMatch := work.source == ms.source;
        var srcMatch := exactSrcMatch || Matches(u, work.source, ms.source);
        if !srcMatch && !opts.updateAlways then
          ChangeInfo(SkippedSourceChanged, work, master, None)
        else if trsMatch && !exactSrcMatch then
          ChangeInfo(SkippedNoChanges, work, master, None)
        else
          ChangeInfo(if exactSrcMatch then UpdatedAsReviewed else UpdatedAsUnreviewed, work, master,
                     Some(Resolved(exactSrcMatch, work.translation)))
  }

  /** The change set for a resolved entry. */
  function ChangeSetOf(r: Resolved): (res: ChangeSet) {
    ChangeSet(r.translation, r.reviewed)
  }

  /** The seven counters of the summary printed for each language. */
  datatype Counts = Counts(
    reviewed: nat, unreviewed: nat, alreadyReviewed: nat, srcChanged: nat,
    noChanges: nat, notAvailable: nat, reviewedOverwritten: nat)
  {
    /** The counter of category `c`. */
    function Of(c: Category): (r: nat) {
      match c
      case UpdatedAsReviewed => reviewed
      case UpdatedAsUnreviewed => unreviewed
      case SkippedAlreadyReviewed => alreadyReviewed
      case SkippedSourceChanged => srcChanged
      case SkippedNoChanges => noChanges
      case SkippedNotAvailable => notAvailable
      case UpdatedAsReviewedOverwritten => reviewedOverwritten
    }

    /** The counters after one more entry of category `c`. */
    function Bump(c: Category): (r: Counts)
    {
      match c
      case UpdatedAsReviewed => this.(reviewed := reviewed + 1)
      case UpdatedAsUnreviewed => this.(unreviewed := unreviewed + 1)
      case SkippedAlreadyReviewed => this.(alreadyReviewed := alreadyReviewed + 1)
      case SkippedSourceChanged => this.(srcChanged := srcChanged + 1)
      case SkippedNoChanges => this.(noChanges := noChanges + 1)
      case SkippedNotAvailable => this.(notAvailable := notAvailable + 1)
      case UpdatedAsReviewedOverwritten => this.(reviewedOverwritten := reviewedOverwritten + 1)
    }

    function Total(): (r: nat) {
      reviewed + unreviewed + alreadyReviewed + srcChanged + noChanges + notAvailable + reviewedOverwritten
    }
  }

  /** The master entry of a key, or none: `masterResEntries.get(resKey)`. */
  function Lookup(master: map<JString, Summary>, key: JString): (r: Option<Summary>) {
    if key in master then Some(master[key]) else None
  }

  /** Every work entry with its change log entry. */
  function Infos(u: Unicode, opts: Options, work: map<JString, Summary>, master: map<JString, Summary>): (infos: map<JString, ChangeInfo>)
    ensures infos.Keys == work.Keys
  {
    map k | k in work :: Classify(u, opts, work[k], Lookup(master, k))
  }

  /** Every work entry with its change log entry, for a classification `classify` of the entry pairs. */
  ghost function InfosBy(classify: (Summary, Option<Summary>) -> ChangeInfo, work: map<JString, Summary>, master: map<JString, Summary>): (r: map<JString, ChangeInfo>)
  {
    map k | k in work :: classify(work[k], Lookup(master, k))
  }

  /** The number of the keys of `keys` whose entries fall in category `c`. */
  function Number(infos: map<JString, ChangeInfo>, keys: set<JString>, c: Category): (r: nat)
    requires keys <= infos.Keys
  {
    |set k | k in keys && infos[k].category == c|
  }

  /** The counters for the entries of `keys`: how many fall in each category. */
  function CountsOf(infos: map<JString, ChangeInfo>, keys: set<JString>): (r: Counts)
    requires keys <= infos.Keys
  {
    Counts(Number(infos, keys, UpdatedAsReviewed), Number(infos, keys, UpdatedAsUnreviewed),
           Number(infos, keys, SkippedAlreadyReviewed), Number(infos, keys, SkippedSourceChanged),
           Number(infos, keys, SkippedNoChanges), Number(infos, keys, SkippedNotAvailable),
           Number(infos, keys, UpdatedAsReviewedOverwritten))
  }

  /**
    The entry loop for one language: the `updated` and `skipped` logs, the
    change set for the master and the counters. Entries are visited in the
    work map's order, which none of the results depends on.
   */
  method MergeEntries(u: Unicode, opts: Options, work: map<JString, Summary>, master: map<JString, Summary>)
    returns (updated: map<JString, ChangeInfo>, skipped: map<JString, ChangeInfo>, changes: map<JString, ChangeSet>, counts: Counts)
    ensures var infos := Infos(u, opts, work, master);
      updated == LogOf(infos, work.Keys, true) && skipped == LogOf(infos, work.Keys, false)
    ensures ChangesFor(updated, changes)
    ensures counts == CountsOf(Infos(u, opts, work, master), work.Keys)
    ensures counts.Total() == |work|
  {
    var classify := (w, m) => Classify(u, opts, w, m);
    updated, skipped, changes, counts := LogEntries(work, master, classify);
    InfosByClassify(u, opts, work, master, classify);
  }

  /** The entries classified by a function that agrees with `Classify`. */
  lemma InfosByClassify(u: Unicode, opts: Options, work: map<JString, Summary>, master: map<JString, Summary>,
                        classify: (Summary, Option<Summary>) -> ChangeInfo)
    requires forall w, m :: classify(w, m) == Classify(u, opts, w, m)
    ensures InfosBy(classify, work, master) == Infos(u, opts, work, master)
  {
  }

  /** The entry loop, with the classification of an entry pair as the parameter `classify`. */
  method LogEntries(work: map<JString, Summary>, master: map<JString, Summary>, classify: (Summary, Option<Summary>) -> ChangeInfo)
    returns (updated: map<JString, ChangeInfo>, skipped: map<JString, ChangeInfo>, changes: map<JString, ChangeSet>, counts: Counts)
    requires forall w, m :: classify(w, m).category.IsUpdate() <==> classify(w, m).resolved.Some?
    ensures Logged(InfosBy(classify, work, master), work.Keys, updated, skipped, changes)
    ensures counts == CountsOf(InfosBy(classify, work, master), work.Keys)
    ensures counts.Total() == |work|
  {
    ghost var infos := InfosBy(classify, work, master);
    updated, skipped, changes := map[], map[], map[];
    counts := Counts(0, 0, 0, 0, 0, 0, 0);
    var todo := work.Keys;
    ghost var done: set<JString> := {};
    ghost var order: seq<JString> := [];
    LoggedEmpty(infos);
    while todo != {}
      invariant todo <= work.Keys && done == work.Keys - todo
      invariant Logged(infos, done, updated, skipped, changes)
      invariant Visits(order, done) && counts == Tally(infos, order)
      decreases todo
    {
      var key :| key in todo;
      ghost var (updated0, skipped0, changes0) := (updated, skipped, changes);
      updated, skipped, changes, counts := Visit(work, master, classify, key, updated, skipped, changes, counts);
      LoggedStep(infos, done, key, updated0, skipped0, changes0, updated, skipped, changes);
      TallyStep(infos, order, done, key);
      order := order + [key];
      done := done + {key};
      todo := todo - {key};
    }
    assert done == work.Keys;
    TallyCounts(infos, order, done);
    TallyTotal(infos, order);
    VisitsCount(order, done);
  }

  /** One visit of the entry loop: the entry of `key` is classified and logged, and its category counted. */
  method Visit(work: map<JString, Summary>, master: map<JString, Summary>, classify: (Summary, Option<Summary>) -> ChangeInfo,
               key: JString, updated: map<JString, ChangeInfo>, skipped: map<JString, ChangeInfo>, changes: map<JString, ChangeSet>, counts: Counts)
    returns (updated': map<JString, ChangeInfo>, skipped': map<JString, ChangeInfo>, changes': map<JString, ChangeSet>, counts': Counts)
    requires key in work
    requires forall w, m :: classify(w, m).category.IsUpdate() <==> classify(w, m).resolved.Some?
    ensures var info := InfosBy(classify, work, master)[key];
      (info.category.IsUpdate() ==>
        updated' == updated[key := info] && changes' == changes[key := ChangeSetOf(info.resolved.value)] && skipped' == skipped) &&
      (!info.category.IsUpdate() ==> updated' == updated && changes' == changes && skipped' == skipped[key := info]) &&
      counts' == counts.Bump(info.category)
  {
    var info := classify(work[key], Lookup(master, key));
    updated', skipped', changes' := updated, skipped, changes;
    if info.category.IsUpdate() {
      updated' := updated[key := info];
      changes' := changes[key := ChangeSetOf(info.resolved.value)];
    } else {
      skipped' := skipped[key := info];
    }
    counts' := counts.Bump(info.category);
  }

  /** `order` lists the keys of `done`, each once. */
  ghost predicate Visits(order: seq<JString>, done: set<JString>) {
    (forall i, j | 0 <= i < j < |order| :: order[i] != order[j]) &&
    (forall k :: k in order <==> k in done)
  }

  /** The counters after visiting the keys of `order` one after the other. */
  ghost function Tally(infos: map<JString, ChangeInfo>, order: seq<JString>): (r: Counts)
    requires forall k | k in order :: k in infos
  {
    if order == [] then Counts(0, 0, 0, 0, 0, 0, 0)
    else Tally(infos, order[..|order| - 1]).Bump(infos[order[|order| - 1]].category)
  }

  lemma TallyStep(infos: map<JString, ChangeInfo>, order: seq<JString>, done: set<JString>, key: JString)
    requires done <= infos.Keys && key in infos && key !in done && Visits(order, done)
    ensures Visits(order + [key], done + {key})
    ensures Tally(infos, order + [key]) == Tally(infos, order).Bump(infos[key].category)
  {
    assert (order + [key])[..|order|] == order;
  }

  /** Visiting the keys one after the other counts, for each category, the keys that fall in it. */
  lemma {:induction false} TallyCounts(infos: map<JString, ChangeInfo>, order: seq<JString>, done: set<JString>)
    requires done <= infos.Keys && Visits(order, done)
    ensures Tally(infos, order) == CountsOf(infos, done)
    decreases |order|
  {
    if order == [] {
      assert done == {};
      LoggedEmpty(infos);
    } else {
      var key := order[|order| - 1];
      var prefix := order[..|order| - 1];
      var rest := done - {key};
      VisitsPrefix(order, done);
      TallyCounts(infos, prefix, rest);
      CountsStep(infos, done, key);
    }
  }

  /** The logs and change set once the entries of `done` are visited. */
  ghost predicate Logged(infos: map<JString, ChangeInfo>, done: set<JString>, updated: map<JString, ChangeInfo>,
                         skipped: map<JString, ChangeInfo>, changes: map<JString, ChangeSet>)
  {
    done <= infos.Keys &&
    updated == LogOf(infos, done, true) &&
    skipped == LogOf(infos, done, false) &&
    ChangesFor(updated, changes)
  }

  /** The visited entries that are updates (`update`) or that are skipped (`!update`). */
  ghost function LogOf(infos: map<JString, ChangeInfo>, done: set<JString>, update: bool): (r: map<JString, ChangeInfo>)
    requires done <= infos.Keys
  {
    map k | k in done && infos[k].category.IsUpdate() == update :: infos[k]
  }

  /** The change set holds the resolved entry of each update. */
  ghost predicate ChangesFor(updated: map<JString, ChangeInfo>, changes: map<JString, ChangeSet>) {
    changes.Keys == updated.Keys &&
    forall k | k in changes :: updated[k].resolved.Some? && changes[k] == ChangeSetOf(updated[k].resolved.value)
  }

  lemma LoggedEmpty(infos: map<JString, ChangeInfo>)
    ensures Logged(infos, {}, map[], map[], map[])
    ensures CountsOf(infos, {}) == Counts(0, 0, 0, 0, 0, 0, 0)
  {
    assert LogOf(infos, {}, true) == map[];
    assert LogOf(infos, {}, false) == map[];
  }

  /** One visit of the entry loop keeps the logs and the change set in step with the visited keys. */
  lemma LoggedStep(infos: map<JString, ChangeInfo>, done: set<JString>, key: JString,
                   updated: map<JString, ChangeInfo>, skipped: map<JString, ChangeInfo>, changes: map<JString, ChangeSet>,
                   updated': map<JString, ChangeInfo>, skipped': map<JString, ChangeInfo>, changes': map<JString, ChangeSet>)
    requires Logged(infos, done, updated, skipped, changes)
    requires key in infos && key !in done
    requires infos[key].category.IsUpdate() <==> infos[key].resolved.Some?
    requires infos[key].category.IsUpdate() ==>
      updated' == updated[key := infos[key]] && changes' == changes[key := ChangeSetOf(infos[key].resolved.value)] && skipped' == skipped
    requires !infos[key].category.IsUpdate() ==>
      updated' == updated && changes' == changes && skipped' == skipped[key := infos[key]]
    ensures Logged(infos, done + {key}, updated', skipped', changes')
  {
    var update := infos[key].category.IsUpdate();
    LogStep(infos, done, key, update);
    LogStep(infos, done, key, !update);
    if update {
      ChangesStep(updated, changes, key, infos[key]);
    }
  }

  /** Visiting one more entry adds it to the log of its kind and leaves the other log alone. */
  lemma LogStep(infos: map<JString, ChangeInfo>, done: set<JString>, key: JString, update: bool)
    requires done <= infos.Keys && key in infos && key !in done
    ensures LogOf(infos, done + {key}, update) ==
      if infos[key].category.IsUpdate() == update then LogOf(infos, done, update)[key := infos[key]] else LogOf(infos, done, update)
  {
  }

  /** Logging an update with its change keeps the change set in step with the updates. */
  lemma ChangesStep(updated: map<JString, ChangeInfo>, changes: map<JString, ChangeSet>, key: JString, info: ChangeInfo)
    requires ChangesFor(updated, changes) && info.resolved.Some?
    ensures ChangesFor(updated[key := info], changes[key := ChangeSetOf(info.resolved.value)])
  {
  }

  /** One visit bumps the counter of the entry's category. */
  lemma CountsStep(infos: map<JString, ChangeInfo>, keys: set<JString>, key: JString)
    requires keys <= infos.Keys && key in keys
    ensures CountsOf(infos, keys) == CountsOf(infos, keys - {key}).Bump(infos[key].category)
  {
    var next := CountsOf(infos, keys - {key}).Bump(infos[key].category);
    forall c ensures CountsOf(infos, keys).Of(c) == next.Of(c) {
      NumberStep(infos, keys, key, c);
      BumpOf(CountsOf(infos, keys - {key}), infos[key].category, c);
    }
    SameCounters(CountsOf(infos, keys), next);
  }

  /** Counters that agree on every category are the same. */
  lemma SameCounters(a: Counts, b: Counts)
    requires forall c :: a.Of(c) == b.Of(c)
    ensures a == b
  {
    // one instance per field
    assert a.Of(UpdatedAsReviewed) == b.Of(UpdatedAsReviewed) && a.Of(UpdatedAsUnreviewed) == b.Of(UpdatedAsUnreviewed);
    assert a.Of(SkippedAlreadyReviewed) == b.Of(SkippedAlreadyReviewed) && a.Of(SkippedSourceChanged) == b.Of(SkippedSourceChanged);
    assert a.Of(SkippedNoChanges) == b.Of(SkippedNoChanges) && a.Of(SkippedNotAvailable) == b.Of(SkippedNotAvailable);
    assert a.Of(UpdatedAsReviewedOverwritten) == b.Of(UpdatedAsReviewedOverwritten);
  }

  /** A list of distinct keys is as long as the set of its keys. */
  lemma {:induction false} VisitsCount(order: seq<JString>, done: set<JString>)
    requires Visits(order, done)
    ensures |order| == |done|
    decreases |order|
  {
    if order != [] {
      var key := order[|order| - 1];
      var prefix := order[..|order| - 1];
      VisitsPrefix(order, done);
      VisitsCount(prefix, done - {key});
    }
  }

  /** Dropping the last visited key leaves a list of the other keys. */
  lemma VisitsPrefix(order: seq<JString>, done: set<JString>)
    requires Visits(order, done) && order != []
    ensures Visits(order[..|order| - 1], done - {order[|order| - 1]})
  {
    var key := order[|order| - 1];
    var prefix := order[..|order| - 1];
    forall k ensures k in prefix <==> k in done - {key} {
      if k in prefix {
        var i :| 0 <= i < |prefix| && prefix[i] == k;
        assert order[i] == k;
      }
      if k in done - {key} {
        var i :| 0 <= i < |order| && order[i] == k;
        assert prefix[i] == k;
      }
    }
  }

  /** Visiting the keys one after the other counts each of them once. */
  lemma {:induction false} TallyTotal(infos: map<JString, ChangeInfo>, order: seq<JString>)
    requires forall k | k in order :: k in infos
    ensures Tally(infos, order).Total() == |order|
    decreases |order|
  {
    if order != [] {
      var prefix := order[..|order| - 1];
      assert forall k | k in prefix :: k in order;
      TallyTotal(infos, prefix);
      TotalBump(Tally(infos, prefix), infos[order[|order| - 1]].category);
    }
  }

  /** Counting one more entry of category `c` adds one to the counter of `c` and to no other. */
  lemma BumpOf(counts: Counts, c: Category, d: Category)
    ensures counts.Bump(c).Of(d) == counts.Of(d) + (if d == c then 1 else 0)
  {
  }

  /** Counting one more entry adds one to the total. */
  lemma TotalBump(counts: Counts, c: Category)
    ensures counts.Bump(c).Total() == counts.Total() + 1
  {
  }

  /** Counting one more key adds one to the count of its category only. */
  lemma NumberStep(infos: map<JString, ChangeInfo>, keys: set<JString>, key: JString, c: Category)
    requires keys <= infos.Keys && key in keys
    ensures Number(infos, keys, c) == Number(infos, keys - {key}, c) + (if infos[key].category == c then 1 else 0)
  {
    var before := set k | k in keys - {key} && infos[k].category == c;
    var after := set k | k in keys && infos[k].category == c;
    if infos[key].category == c {
      assert after == before + {key};
    } else {
      assert after == before;
    }
  }

  // ---------------------------------------------------------------------
  // properties

  /** The rules of the classification, in the order the loop applies them. */
  lemma ClassifyRules(u: Unicode, opts: Options, work: Summary, master: Option<Summary>)
    ensures var info := Classify(u, opts, work, master);
      var trsMatch := master.Some? && work.translation == master.value.translation;
      var exactSrcMatch := master.Some? && work.source == master.value.source;
      var srcMatch := master.Some? && Matches(u, work.source, master.value.source);
      (info.category == SkippedNotAvailable <==> master.None?) &&
      (info.category == UpdatedAsReviewedOverwritten <==>
        master.Some? && master.value.reviewed && !trsMatch && opts.includesReviewed) &&
      (info.category == SkippedAlreadyReviewed <==>
        master.Some? && master.value.reviewed && (trsMatch || !opts.includesReviewed)) &&
      (info.category == SkippedSourceChanged <==>
        master.Some? && !master.value.reviewed && !srcMatch && !opts.updateAlways) &&
      (info.category == SkippedNoChanges <==>
        master.Some? && !master.value.reviewed && (srcMatch || opts.updateAlways) && trsMatch && !exactSrcMatch) &&
      (info.category == UpdatedAsReviewed <==> master.Some? && !master.value.reviewed && exactSrcMatch) &&
      (info.category == UpdatedAsUnreviewed <==>
        master.Some? && !master.value.reviewed && !exactSrcMatch && (srcMatch || opts.updateAlways) && !trsMatch)
  {
    if master.Some? && work.source == master.value.source {
      MatchesEquivalence(u, work.source, work.source, work.source);
    }
  }

  /**
    An update marks the master entry reviewed exactly when the sources are
    equal or a reviewed entry is overwritten: a reviewed master entry is
    never set back to unreviewed.
   */
  lemma ReviewedOnlyOnExactSource(u: Unicode, opts: Options, work: Summary, master: Option<Summary>)
    ensures var info := Classify(u, opts, work, master);
      info.resolved.Some? ==>
        master.Some? &&
        (info.resolved.value.reviewed <==> work.source == master.value.source || master.value.reviewed)
  {
  }

  /** The master entries after the change set is written to them. */
  function Apply(master: map<JString, Summary>, changes: map<JString, ChangeSet>): (next: map<JString, Summary>)
    ensures next.Keys == master.Keys
  {
    map k | k in master ::
      if k in changes then Summary(changes[k].reviewed, master[k].source, changes[k].value) else master[k]
  }

  /** An entry written by a merge is left alone by a second merge with the same options. */
  lemma UpdateSettles(u: Unicode, opts: Options, work: Summary, master: Summary)
    requires Classify(u, opts, work, Some(master)).resolved.Some?
    ensures var cs := ChangeSetOf(Classify(u, opts, work, Some(master)).resolved.value);
      var written := Summary(cs.reviewed, master.source, cs.value);
      !Classify(u, opts, work, Some(written)).category.IsUpdate()
  {
  }

  /** Merging the same work entries again after the change set is written changes nothing more. */
  lemma MergeTwiceChangesNothing(u: Unicode, opts: Options, work: map<JString, Summary>, master: map<JString, Summary>)
    ensures var infos := Infos(u, opts, work, master);
      var changes := map k | k in infos && infos[k].resolved.Some? :: ChangeSetOf(infos[k].resolved.value);
      var again := Infos(u, opts, work, Apply(master, changes));
      forall k | k in again :: !again[k].category.IsUpdate()
  {
    var infos := Infos(u, opts, work, master);
    var changes := map k | k in infos && infos[k].resolved.Some? :: ChangeSetOf(infos[k].resolved.value);
    var next := Apply(master, changes);
    forall k | k in work
      ensures !Classify(u, opts, work[k], Lookup(next, k)).category.IsUpdate()
    {
      if k in changes {
        UpdateSettles(u, opts, work[k], master[k]);
      } else {
        assert Lookup(next, k) == Lookup(master, k);
      }
    }
  }

  /** `--update-always` and `--includes-reviewed` only ever add updates. */
  lemma FlagsOnlyAddUpdates(u: Unicode, opts: Options, work: Summary, master: Option<Summary>)
    ensures Classify(u, opts, work, master).category.IsUpdate() ==>
      Classify(u, opts.(updateAlways := true), work, master).category.IsUpdate() &&
      Classify(u, opts.(includesReviewed := true), work, master).category.IsUpdate()
  {
  }
}
