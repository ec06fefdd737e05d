/** The values the dashboard derives from the record list: the filtered view
    (`applyFilters`), the metric counts (`updateMetrics`), the category choices
    (`updateCategoryFilter`) and the status badge (`getStatusClass`). */
module Views {
  import opened Text
  import opened Seqs
  import opened Assets

  /** `currentFilter`: a category (or the wildcard "All") and the search text. */
  datatype Criteria = Criteria(category: string, search: string)

  /** The category value that disables the category filter. */
  const AllCategories: string := "All"

  const InitialCriteria: Criteria := Criteria(AllCategories, "")

  predicate MatchesCategory(a: Asset, category: string) {
    category == AllCategories || a.category == category
  }

  /** An empty search keeps everything; otherwise the lower-cased search text
      must occur in the lower-cased tag or name. */
  predicate MatchesSearch(a: Asset, search: string) {
    search == [] || Contains(Lower(a.tag), Lower(search)) || Contains(Lower(a.name), Lower(search))
  }

  predicate IsVisible(a: Asset, c: Criteria) {
    MatchesCategory(a, c.category) && MatchesSearch(a, c.search)
  }

  function CategoryTest(category: string): Asset -> bool {
    (a: Asset) => MatchesCategory(a, category)
  }

  function SearchTest(search: string): Asset -> bool {
    (a: Asset) => MatchesSearch(a, search)
  }

  function VisibleTest(c: Criteria): Asset -> bool {
    (a: Asset) => IsVisible(a, c)
  }

  /** The records `applyFilters` leaves in `filteredAssets`. */
  function Visible(assets: seq<Asset>, c: Criteria): (r: seq<Asset>)
    ensures |r| <= |assets|
    ensures forall a :: a in r ==> a in assets && IsVisible(a, c)
  {
    Filter(assets, VisibleTest(c))
  }

  /** Filtering by category and then by search text, as `applyFilters` does,
      gives the records that pass both tests at once. */
  lemma VisibleInStages(assets: seq<Asset>, c: Criteria)
    ensures Visible(assets, c) == Filter(Filter(assets, CategoryTest(c.category)), SearchTest(c.search))
  {
    FilterFilter(assets, CategoryTest(c.category), SearchTest(c.search), VisibleTest(c));
  }

  /** The view is an order-preserving selection of the records: a record is
      shown exactly when it passes both criteria, as often as it is stored. */
  lemma VisibleSpec(assets: seq<Asset>, c: Criteria)
    ensures IsSubsequence(Visible(assets, c), assets)
    ensures forall a :: a in Visible(assets, c) <==> a in assets && IsVisible(a, c)
    ensures forall a: Asset :: IsVisible(a, c) ==> multiset(Visible(assets, c))[a] == multiset(assets)[a]
  {
    var p := VisibleTest(c);
    FilterIsSubsequence(assets, p);
    forall a ensures a in Visible(assets, c) <==> a in assets && IsVisible(a, c) {
      FilterMembership(assets, p, a);
    }
    forall a: Asset | IsVisible(a, c) ensures multiset(Visible(assets, c))[a] == multiset(assets)[a] {
      FilterMultiplicity(assets, p, a);
    }
  }

  /** With the initial criteria every record is shown, in stored order. */
  lemma InitialShowsAll(assets: seq<Asset>)
    ensures Visible(assets, InitialCriteria) == assets
  {
    FilterKeepsAll(assets, VisibleTest(InitialCriteria));
  }

  /** A search for a record's tag, typed in any letter case, finds that record
      when no category is selected. */
  lemma SearchFindsTag(assets: seq<Asset>, k: nat, search: string)
    requires k < |assets| && TagsMatch(search, assets[k].tag)
    ensures assets[k] in Visible(assets, Criteria(AllCategories, search))
  {
    FoldAgree(search, assets[k].tag);
    ContainsSelf(Lower(search));
    FilterMembership(assets, VisibleTest(Criteria(AllCategories, search)), assets[k]);
  }

  /** Narrowing the search keeps the view within the previous one: a search
      text extended at either end shows no record the shorter one hid. */
  lemma LongerSearchNarrows(assets: seq<Asset>, category: string, search: string, pre: string, post: string)
    ensures forall a :: a in Visible(assets, Criteria(category, pre + search + post)) ==>
      a in Visible(assets, Criteria(category, search))
  {
    var longer := pre + search + post;
    forall a | a in Visible(assets, Criteria(category, longer))
      ensures a in Visible(assets, Criteria(category, search))
    {
      FilterMembership(assets, VisibleTest(Criteria(category, longer)), a);
      FilterMembership(assets, VisibleTest(Criteria(category, search)), a);
      SearchNarrows(a, pre, search, post);
    }
  }

  lemma SearchNarrows(a: Asset, pre: string, search: string, post: string)
    requires MatchesSearch(a, pre + search + post)
    ensures MatchesSearch(a, search)
  {
    if search != [] {
      LowerAppend(pre, search);
      LowerAppend(pre + search, post);
      if Contains(Lower(a.tag), Lower(pre + search + post)) {
        ContainsInner(Lower(a.tag), Lower(pre), Lower(search), Lower(post));
      } else {
        ContainsInner(Lower(a.name), Lower(pre), Lower(search), Lower(post));
      }
    }
  }

  /** A string containing `pre + mid + post` contains `mid`. */
  lemma ContainsInner(s: string, pre: string, mid: string, post: string)
    requires Contains(s, pre + mid + post)
    ensures Contains(s, mid)
  {
    var w := pre + mid + post;
    var i: nat :| OccursAt(s, w, i);
    var window := s[i..i + |w|];
    assert window == w;
    assert w[|pre|..|pre| + |mid|] == mid;
    forall k | 0 <= k < |mid| ensures s[i + |pre|..i + |pre| + |mid|][k] == mid[k] {
      assert s[i + |pre| + k] == window[|pre| + k] == w[|pre| + k];
    }
    assert OccursAt(s, mid, i + |pre|);
  }

  const Available: string := "Available"
  const InUse: string := "In Use"
  const Maintenance: string := "Maintenance"
  const Repair: string := "Repair"
  const Fixed: string := "Fixed"

  /** The five statuses the add and edit forms offer. */
  predicate IsKnownStatus(s: string) {
    s == Available || s == InUse || s == Maintenance || s == Repair || s == Fixed
  }

  predicate CountsAvailable(a: Asset) { a.status == Available }
  predicate CountsInUse(a: Asset) { a.status == InUse || a.status == Fixed }
  predicate CountsMaintenance(a: Asset) { a.status == Maintenance || a.status == Repair }

  /** The four figures `updateMetrics` writes to the dashboard. */
  datatype Metrics = Metrics(total: nat, available: nat, inUse: nat, maintenance: nat)

  /** `updateMetrics`: the number of records, and how many are available,
      in use or fixed, and in maintenance or repair. */
  function ComputeMetrics(assets: seq<Asset>): (m: Metrics)
    ensures m.total == |assets|
    ensures m.available + m.inUse + m.maintenance <= m.total
    ensures (forall i :: 0 <= i < |assets| ==> IsKnownStatus(assets[i].status)) ==>
      m.available + m.inUse + m.maintenance == m.total
  {
    var m := Metrics(|assets|, Count(assets, CountsAvailable), Count(assets, CountsInUse),
                     Count(assets, CountsMaintenance));
    var busy := (a: Asset) => CountsInUse(a) || CountsMaintenance(a);
    var any := (a: Asset) => CountsAvailable(a) || busy(a);
    CountDisjoint(assets, CountsInUse, CountsMaintenance, busy);
    CountDisjoint(assets, CountsAvailable, busy, any);
    if forall i :: 0 <= i < |assets| ==> IsKnownStatus(assets[i].status) then
      CountAll(assets, any);
      m
    else
      m
  }

  /** Adding one record raises the total by one and exactly the one figure,
      if any, that its status belongs to. */
  lemma MetricsAfterAppend(assets: seq<Asset>, a: Asset)
    ensures var before, after := ComputeMetrics(assets), ComputeMetrics(assets + [a]);
      && after.total == before.total + 1
      && after.available == before.available + (if a.status == Available then 1 else 0)
      && after.inUse == before.inUse + (if a.status == InUse || a.status == Fixed then 1 else 0)
      && after.maintenance == before.maintenance + (if a.status == Maintenance || a.status == Repair then 1 else 0)
  {
    CountSnoc(assets, a, CountsAvailable);
    CountSnoc(assets, a, CountsInUse);
    CountSnoc(assets, a, CountsMaintenance);
  }

  /** The category of every record, in stored order. */
  function CategoryColumn(assets: seq<Asset>): (r: seq<string>)
    ensures |r| == |assets| && forall i :: 0 <= i < |assets| ==> r[i] == assets[i].category
  {
    seq(|assets|, i requires 0 <= i < |assets| => assets[i].category)
  }

  /** `['All', ...new Set(assets.map(a => a.category))]`. */
  function CategoryOptions(assets: seq<Asset>): (r: seq<string>)
    ensures |r| >= 1 && r[0] == AllCategories
    ensures forall i :: 1 <= i < |r| ==> exists k :: 0 <= k < |assets| && assets[k].category == r[i]
  {
    var col := CategoryColumn(assets);
    DistinctSpec(col);
    var r := [AllCategories] + Distinct(col);
    assert forall i :: 1 <= i < |r| ==> r[i] in col by {
      forall i | 1 <= i < |r| ensures r[i] in col {
        assert r[i] == Distinct(col)[i - 1];
      }
    }
    r
  }

  /** The choices start with "All", followed by every category in use exactly
      once, in order of first use, and nothing else. */
  lemma CategoryOptionsSpec(assets: seq<Asset>)
    ensures var opts := CategoryOptions(assets);
      && |opts| >= 1 && opts[0] == AllCategories
      && NoDuplicates(opts[1..])
      && (forall c :: c in opts[1..] <==> exists i :: 0 <= i < |assets| && assets[i].category == c)
      && (forall i, j :: 1 <= i < j < |opts| ==>
            && opts[i] in CategoryColumn(assets) && opts[j] in CategoryColumn(assets)
            && FirstIndex(CategoryColumn(assets), opts[i]) < FirstIndex(CategoryColumn(assets), opts[j]))
  {
    var col := CategoryColumn(assets);
    DistinctSpec(col);
    var opts := CategoryOptions(assets);
    assert opts[1..] == Distinct(col);
    forall c ensures c in opts[1..] <==> exists i :: 0 <= i < |assets| && assets[i].category == c {
      if c in col {
        var i :| 0 <= i < |col| && col[i] == c;
        assert assets[i].category == c;
      }
      if exists i :: 0 <= i < |assets| && assets[i].category == c {
        var i :| 0 <= i < |assets| && assets[i].category == c;
        assert col[i] == c;
      }
    }
    forall i, j | 1 <= i < j < |opts|
      ensures opts[i] in col && opts[j] in col && FirstIndex(col, opts[i]) < FirstIndex(col, opts[j])
    {
      assert opts[i] == Distinct(col)[i - 1] && opts[j] == Distinct(col)[j - 1];
      assert opts[i] in Distinct(col) && opts[j] in Distinct(col);
    }
  }

  /** `getStatusClass`: the badge class of a status; anything else shows as available. */
  function StatusClass(status: string): (r: string)
    ensures r == "badge-available" <==> status == Available || !IsKnownStatus(status)
  {
    if status == Available then "badge-available"
    else if status == InUse then "badge-in-use"
    else if status == Maintenance then "badge-maintenance"
    else if status == Repair then "badge-repair"
    else if status == Fixed then "badge-fixed"
    else "badge-available"
  }

  /** Known statuses get pairwise different badges. */
  lemma StatusClassDistinguishes(s: string, t: string)
    requires IsKnownStatus(s) && IsKnownStatus(t) && s != t
    ensures StatusClass(s) != StatusClass(t)
  {
  }
}
