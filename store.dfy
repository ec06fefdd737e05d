/** The page's module state and the handlers that change it: `assets`, the
    copy kept in browser storage, `currentFilter` and `filteredAssets`. */
module Store {
  import opened Wrappers
  import opened Text
  import opened Seqs
  import opened Assets
  import opened Views

  /** What a submitted add or edit came to. */
  datatype Outcome = Saved | DuplicateTag | NotFound

  class Inventory {
    /** `assets`: the records, in insertion order. */
    var assets: seq<Asset>
    /** The `inventoryAssets` entry of browser storage, if any. */
    var stored: Option<seq<Asset>>
    /** `currentFilter`. */
    var criteria: Criteria
    /** `filteredAssets`: what the table shows. */
    var filtered: seq<Asset>

    /** The shown list is the filter of the records by the current criteria. */
    ghost predicate Valid()
      reads this
    {
      filtered == Visible(assets, criteria)
    }

    /** The page before `loadAssets`: no records, no filter, and whatever
        browser storage already holds. */
    constructor (saved: Option<seq<Asset>>)
      ensures Valid()
      ensures assets == [] && filtered == [] && criteria == InitialCriteria && stored == saved
    {
      assets := [];
      stored := saved;
      criteria := InitialCriteria;
      filtered := [];
    }

    /** `saveAssets`: browser storage now holds the records. */
    method Save()
      modifies this`stored
      ensures stored == Some(assets)
    {
      stored := Some(assets);
    }

    /** `applyFilters`: the category filter unless "All" is selected, then
        the search filter unless the search text is empty. */
    method ApplyFilters()
      modifies this`filtered
      ensures Valid()
    {
      var result := assets;
      var category := criteria.category;
      if category != AllCategories {
        result := Filter(result, (a: Asset) => a.category == category);
        FilterCongruent(assets, (a: Asset) => a.category == category, CategoryTest(category));
      } else {
        FilterKeepsAll(assets, CategoryTest(category));
      }
      ghost var afterCategory := result;
      var search := criteria.search;
      if search != [] {
        var needle := Lower(search);
        var matches := (a: Asset) => Contains(Lower(a.tag), needle) || Contains(Lower(a.name), needle);
        result := Filter(result, matches);
        FilterCongruent(afterCategory, matches, SearchTest(search));
      } else {
        FilterKeepsAll(afterCategory, SearchTest(search));
      }
      VisibleInStages(assets, criteria);
      filtered := result;
    }

    /** `loadAssets`: the saved records if storage holds any (an empty saved
        list included), otherwise the seed set, which is saved at once. */
    method Load(now: int)
      modifies this
      ensures Valid() && criteria == old(criteria)
      ensures old(stored).Some? ==> assets == old(stored).value && stored == old(stored)
      ensures old(stored).None? ==> assets == Seed(now) && stored == Some(Seed(now))
    {
      if stored.Some? {
        assets := stored.value;
      } else {
        assets := Seed(now);
        Save();
      }
      ApplyFilters();
    }

    /** The record-building part of `handleAddAsset`. The tag is trimmed and
        checked against every record, ignoring case; a duplicate leaves
        everything as it was. Otherwise the new record is appended, saved and
        the view recomputed. `id` and `now` stand for `Date.now()`. */
    method Add(d: Draft, id: string, now: int) returns (outcome: Outcome)
      requires Valid()
      requires forall i :: 0 <= i < |assets| ==> assets[i].id != id
      modifies this
      ensures Valid() && criteria == old(criteria)
      ensures outcome != NotFound
      ensures outcome == Saved <==> IsAssetTagUnique(old(assets), Trim(d.tag), None)
      ensures outcome == Saved ==> assets == old(assets) + [NewAsset(id, d, now)] && stored == Some(assets)
      ensures outcome == DuplicateTag ==>
        assets == old(assets) && stored == old(stored) && filtered == old(filtered)
      ensures old(UniqueTags(assets)) ==> UniqueTags(assets)
      ensures old(UniqueIds(assets)) ==> UniqueIds(assets)
    {
      var tag := Trim(d.tag);
      if !IsAssetTagUnique(assets, tag, None) {
        return DuplicateTag;
      }
      var asset := NewAsset(id, d, now);
      AppendKeepsUnique(assets, asset);
      assets := assets + [asset];
      Save();
      ApplyFilters();
      return Saved;
    }

    /** The update part of `handleEditAsset`. Nothing happens when no record
        has the id. The trimmed tag is checked against every record with a
        different id, ignoring case; a duplicate leaves everything as it was.
        Otherwise the first record with the id is replaced by one that keeps
        its id and creation time, then saved and the view recomputed. */
    method Edit(id: string, d: Draft) returns (outcome: Outcome)
      requires Valid()
      modifies this
      ensures Valid() && criteria == old(criteria)
      ensures FindIndex(old(assets), id) == -1 ==> outcome == NotFound
      ensures FindIndex(old(assets), id) >= 0 ==>
        outcome == (if IsAssetTagUnique(old(assets), Trim(d.tag), Some(id)) then Saved else DuplicateTag)
      ensures outcome == Saved ==>
        var k := FindIndex(old(assets), id);
        assets == old(assets)[k := Edited(old(assets)[k], d)] && stored == Some(assets)
      ensures outcome != Saved ==>
        assets == old(assets) && stored == old(stored) && filtered == old(filtered)
      ensures old(UniqueIds(assets)) ==> UniqueIds(assets)
      ensures old(UniqueIds(assets)) && old(UniqueTags(assets)) ==> UniqueTags(assets)
    {
      var k := FindIndex(assets, id);
      var tag := Trim(d.tag);
      if k == -1 {
        return NotFound;
      }
      if !IsAssetTagUnique(assets, tag, Some(id)) {
        return DuplicateTag;
      }
      var asset := Edited(assets[k], d);
      if UniqueIds(assets) {
        ReplaceKeepsUnique(assets, k, asset);
      }
      assets := assets[k := asset];
      Save();
      ApplyFilters();
      return Saved;
    }

    /** The removal part of `deleteAsset`: unless the user declines the
        confirmation, every record with the id is dropped, the rest keep
        their order, and the list is saved even when nothing matched. */
    method Delete(id: string, confirmed: bool)
      requires Valid()
      modifies this
      ensures Valid() && criteria == old(criteria)
      ensures !confirmed ==> assets == old(assets) && stored == old(stored) && filtered == old(filtered)
      ensures confirmed ==> assets == Without(old(assets), id) && stored == Some(assets)
      ensures old(UniqueTags(assets)) ==> UniqueTags(assets)
      ensures old(UniqueIds(assets)) ==> UniqueIds(assets)
    {
      if !confirmed {
        return;
      }
      WithoutKeepsUnique(assets, id);
      assets := Without(assets, id);
      Save();
      ApplyFilters();
    }

    /** `handleSearch`: a new search text, and the view recomputed. */
    method Search(text: string)
      modifies this
      ensures Valid()
      ensures criteria == old(criteria).(search := text)
      ensures assets == old(assets) && stored == old(stored)
    {
      criteria := criteria.(search := text);
      ApplyFilters();
    }

    /** `handleCategoryFilter`: a new category (or "All"), and the view recomputed. */
    method SelectCategory(category: string)
      modifies this
      ensures Valid()
      ensures criteria == old(criteria).(category := category)
      ensures assets == old(assets) && stored == old(stored)
    {
      criteria := criteria.(category := category);
      ApplyFilters();
    }
  }
}
