/** The asset records and the value-level rules of the store: the
    case-insensitive tag check (`isAssetTagUnique`), the records built by the
    add and edit handlers, `findIndex` by id, removal by id and the seed set. */
module Assets {
  import opened Wrappers
  import opened Text
  import opened Seqs

  /** One inventory record. `tag` is the record's `assetTag`. `dateAdded` is
      the creation time in milliseconds since the epoch; the stored form is
      its ISO-8601 rendering. */
  datatype Asset = Asset(
    id: string,
    tag: string,
    name: string,
    category: string,
    location: string,
    status: string,
    dateAdded: int)

  /** The values read from the add or edit form, before any trimming. */
  datatype Draft = Draft(tag: string, name: string, category: string, location: string, status: string)

  /** `a.toUpperCase() === b.toUpperCase()`. */
  predicate TagsMatch(a: string, b: string) {
    Upper(a) == Upper(b)
  }

  /** `asset` makes the tag check fail: its tag equals `tag` ignoring case and
      it is not the record being edited (with no `current`, every record counts). */
  predicate Clashes(asset: Asset, tag: string, current: Option<string>) {
    TagsMatch(asset.tag, tag) && (current.None? || asset.id != current.value)
  }

  /** `isAssetTagUnique(tag, currentAssetId)`: no record other than the one with
      id `current` already carries `tag`, compared case-insensitively. */
  function IsAssetTagUnique(assets: seq<Asset>, tag: string, current: Option<string>): (r: bool)
    ensures r <==> forall i :: 0 <= i < |assets| ==> !Clashes(assets[i], tag, current)
  {
    if assets == [] then true
    else !Clashes(assets[0], tag, current) && IsAssetTagUnique(assets[1..], tag, current)
  }

  /** No two records carry the same tag ignoring case. */
  ghost predicate UniqueTags(assets: seq<Asset>) {
    forall i, j :: 0 <= i < j < |assets| ==> !TagsMatch(assets[i].tag, assets[j].tag)
  }

  /** No two records carry the same id. */
  ghost predicate UniqueIds(assets: seq<Asset>) {
    forall i, j :: 0 <= i < j < |assets| ==> assets[i].id != assets[j].id
  }

  /** `assets.findIndex(a => a.id === id)`: the first position holding `id`, or -1. */
  function FindIndex(assets: seq<Asset>, id: string): (r: int)
    ensures -1 <= r < |assets|
    ensures r == -1 <==> forall i :: 0 <= i < |assets| ==> assets[i].id != id
    ensures r >= 0 ==> assets[r].id == id && forall i :: 0 <= i < r ==> assets[i].id != id
  {
    if assets == [] then -1
    else if assets[0].id == id then 0
    else
      var k := FindIndex(assets[1..], id);
      if k == -1 then -1 else k + 1
  }

  /** The record the add handler builds: tag, name and location trimmed,
      category and status taken as selected. */
  function NewAsset(id: string, d: Draft, now: int): (r: Asset)
    ensures r.id == id && r.dateAdded == now
    ensures r.tag == Trim(d.tag) && r.name == Trim(d.name) && r.location == Trim(d.location)
    ensures r.category == d.category && r.status == d.status
  {
    Asset(id, Trim(d.tag), Trim(d.name), d.category, Trim(d.location), d.status, now)
  }

  /** `{ ...old, assetTag, name, category, location, status }`: the edited record
      keeps the id and the creation time of the one it replaces. */
  function Edited(prev: Asset, d: Draft): (r: Asset)
    ensures r.id == prev.id && r.dateAdded == prev.dateAdded
    ensures r.tag == Trim(d.tag) && r.name == Trim(d.name) && r.location == Trim(d.location)
    ensures r.category == d.category && r.status == d.status
  {
    prev.(tag := Trim(d.tag), name := Trim(d.name), category := d.category,
          location := Trim(d.location), status := d.status)
  }

  /** `assets.filter(a => a.id !== id)`. */
  function Without(assets: seq<Asset>, id: string): (r: seq<Asset>)
    ensures |r| <= |assets|
    ensures forall a :: a in r ==> a in assets && a.id != id
  {
    Filter(assets, (a: Asset) => a.id != id)
  }

  /** Deletion removes every record with the id, keeps every other record as
      often as before and in the same relative order, and is a no-op for an
      absent id (so deleting twice is deleting once). */
  lemma WithoutSpec(assets: seq<Asset>, id: string)
    ensures forall a :: a in Without(assets, id) <==> a in assets && a.id != id
    ensures forall a: Asset :: a.id != id ==> multiset(Without(assets, id))[a] == multiset(assets)[a]
    ensures IsSubsequence(Without(assets, id), assets)
    ensures (forall i :: 0 <= i < |assets| ==> assets[i].id != id) ==> Without(assets, id) == assets
    ensures Without(Without(assets, id), id) == Without(assets, id)
  {
    var p := (a: Asset) => a.id != id;
    forall a ensures a in Without(assets, id) <==> a in assets && a.id != id {
      FilterMembership(assets, p, a);
    }
    forall a: Asset | a.id != id ensures multiset(Without(assets, id))[a] == multiset(assets)[a] {
      FilterMultiplicity(assets, p, a);
    }
    FilterIsSubsequence(assets, p);
    if forall i :: 0 <= i < |assets| ==> assets[i].id != id {
      FilterKeepsAll(assets, p);
    }
    var once := Without(assets, id);
    FilterKeepsAll(once, p);
  }

  /** Any order-preserving selection of records keeps tags and ids unique. */
  lemma SubsequenceKeepsUnique(r: seq<Asset>, s: seq<Asset>)
    requires IsSubsequence(r, s)
    ensures UniqueTags(s) ==> UniqueTags(r)
    ensures UniqueIds(s) ==> UniqueIds(r)
  {
    var idx :| Embeds(r, s, idx);
    if UniqueTags(s) {
      forall i, j | 0 <= i < j < |r| ensures !TagsMatch(r[i].tag, r[j].tag) {
        assert r[i] == s[idx[i]] && r[j] == s[idx[j]] && idx[i] < idx[j];
      }
    }
    if UniqueIds(s) {
      forall i, j | 0 <= i < j < |r| ensures r[i].id != r[j].id {
        assert r[i] == s[idx[i]] && r[j] == s[idx[j]] && idx[i] < idx[j];
      }
    }
  }

  /** Deletion keeps tags and ids unique. */
  lemma WithoutKeepsUnique(assets: seq<Asset>, id: string)
    ensures UniqueTags(assets) ==> UniqueTags(Without(assets, id))
    ensures UniqueIds(assets) ==> UniqueIds(Without(assets, id))
  {
    WithoutSpec(assets, id);
    SubsequenceKeepsUnique(Without(assets, id), assets);
  }

  /** Appending a record whose tag passed the check (with no record excluded)
      keeps tags unique; appending one with a fresh id keeps ids unique. */
  lemma AppendKeepsUnique(assets: seq<Asset>, a: Asset)
    ensures UniqueTags(assets) && IsAssetTagUnique(assets, a.tag, None) ==> UniqueTags(assets + [a])
    ensures UniqueIds(assets) && (forall i :: 0 <= i < |assets| ==> assets[i].id != a.id) ==>
      UniqueIds(assets + [a])
  {
    var s := assets + [a];
    if UniqueTags(assets) && IsAssetTagUnique(assets, a.tag, None) {
      forall i, j | 0 <= i < j < |s| ensures !TagsMatch(s[i].tag, s[j].tag) {
        if j == |assets| {
          assert !Clashes(assets[i], a.tag, None);
        }
      }
    }
  }

  /** Replacing the record at `k` by one with the same id whose tag passed the
      check that excludes that id keeps tags and ids unique, provided ids were
      unique (the check excludes every record with the id, not just position `k`). */
  lemma ReplaceKeepsUnique(assets: seq<Asset>, k: nat, a: Asset)
    requires k < |assets| && a.id == assets[k].id
    requires UniqueIds(assets)
    ensures UniqueIds(assets[k := a])
    ensures UniqueTags(assets) && IsAssetTagUnique(assets, a.tag, Some(a.id)) ==> UniqueTags(assets[k := a])
  {
    var s := assets[k := a];
    if UniqueTags(assets) && IsAssetTagUnique(assets, a.tag, Some(a.id)) {
      forall i, j | 0 <= i < j < |s| ensures !TagsMatch(s[i].tag, s[j].tag) {
        if i == k {
          assert !Clashes(assets[j], a.tag, Some(a.id));
        } else if j == k {
          assert !Clashes(assets[i], a.tag, Some(a.id));
        }
      }
    }
  }

  /** Keeping a record's own tag, in any letter case, passes the edit check
      when tags were unique: the record itself is excluded by its id. */
  lemma OwnTagAccepted(assets: seq<Asset>, k: nat, tag: string)
    requires k < |assets| && UniqueTags(assets)
    requires TagsMatch(tag, assets[k].tag)
    ensures IsAssetTagUnique(assets, tag, Some(assets[k].id))
  {
    forall i | 0 <= i < |assets| ensures !Clashes(assets[i], tag, Some(assets[k].id)) {
      if i != k && TagsMatch(assets[i].tag, tag) {
        if i < k {
          assert TagsMatch(assets[i].tag, assets[k].tag);
        } else {
          assert TagsMatch(assets[k].tag, assets[i].tag);
        }
      }
    }
  }

  /** Why the edit rule needs unique ids: with two records sharing id "1",
      the check for id "1" ignores both, and an edit can copy the other's tag. */
  lemma SharedIdLetsEditDuplicate()
    ensures var s := [Asset("1", "X", "", "", "", "", 0), Asset("1", "Y", "", "", "", "", 0)];
      && UniqueTags(s)
      && IsAssetTagUnique(s, "Y", Some("1"))
      && !UniqueTags(s[0 := Edited(s[0], Draft("Y", "", "", "", ""))])
  {
    var s := [Asset("1", "X", "", "", "", "", 0), Asset("1", "Y", "", "", "", "", 0)];
    assert Upper("X")[0] == 'X' && Upper("Y")[0] == 'Y';
    var e := s[0 := Edited(s[0], Draft("Y", "", "", "", ""))];
    assert Trim("Y") == "Y" by { TrimOfTrimmed("Y"); }
    assert TagsMatch(e[0].tag, e[1].tag);
  }

  /** Tags whose characters at one position differ even after upper-casing do not match. */
  lemma DifferentAt(a: string, b: string, k: nat)
    requires k < |a| && k < |b| && UpperChar(a[k]) != UpperChar(b[k])
    ensures !TagsMatch(a, b)
  {
    assert Upper(a)[k] != Upper(b)[k];
  }

  /** One day in milliseconds. */
  const DayMs: int := 86400000

  /** The four sample records stored when nothing was saved yet, dated
      5, 2, 10 and 1 days before `now`. */
  function Seed(now: int): (r: seq<Asset>)
    ensures |r| == 4 && UniqueIds(r) && UniqueTags(r)
    ensures forall i :: 0 <= i < |r| ==> r[i].dateAdded < now
  {
    var r := [
      Asset("1", "SDPS-001", "Desktop Computer", "Electronics", "Computer Lab", "Available", now - DayMs * 5),
      Asset("2", "SDPS-002", "Projector", "Electronics", "Room 101", "In Use", now - DayMs * 2),
      Asset("3", "SDPS-003", "Science Lab Table", "Furniture", "Lab A", "Maintenance", now - DayMs * 10),
      Asset("4", "SDPS-004", "Broken Printer", "Electronics", "Admin Office", "Fixed", now - DayMs * 1)
    ];
    forall i, j | 0 <= i < j < 4 ensures !TagsMatch(r[i].tag, r[j].tag) {
      DifferentAt(r[i].tag, r[j].tag, 7);
    }
    r
  }
}
