/**
 * The list logic of Lambda's `TempusDataAccess`: resolving a user-typed map
 * name against the known map names, the bounded most-recent-first cache of
 * full map overviews, and the map-name list built from the detailed map list.
 *
 * The HTTP requests are not modelled: what a request returns (an overview,
 * or nothing when the request failed) is given to the operation that makes it.
 */
module TempusData {
  import opened Wrappers

  /** The exceptions the modelled operations end with. */
  datatype DataError =
    | MapNotFound     // `Exception("Map not found")`
    | NullReference   // `MapNameList` or the fetched map list is null

  /** `MapInfoModel`, reduced to the name the cache compares. */
  datatype MapInfo = MapInfo(name: string)

  /** `MapFullOverviewModel`, reduced to its `MapInfo` (absent when the response had none). */
  datatype MapOverview = MapOverview(mapInfo: Option<MapInfo>, tier: int)

  /** `DetailedMapOverviewModel`, reduced to its possibly null `Name`; the list holds `Option`s because an element may itself be null. */
  datatype DetailedMap = DetailedMap(name: Option<string>)

  // ---------------------------------------------------------------------------
  // Strings

  /** `ToLower` on the ASCII letters. */
  function LowerChar(c: char): (d: char)
    ensures 'A' <= c <= 'Z' ==> 'a' <= d <= 'z'
    ensures !('A' <= c <= 'Z') ==> d == c
  {
    if 'A' <= c <= 'Z' then (c as int + 32) as char else c
  }

  function ToLower(s: string): (r: string)
    ensures |r| == |s|
    ensures forall i :: 0 <= i < |s| ==> r[i] == LowerChar(s[i])
  {
    if s == [] then [] else [LowerChar(s[0])] + ToLower(s[1..])
  }

  /** Lowering twice is lowering once. */
  lemma ToLowerIdempotent(s: string)
    ensures ToLower(ToLower(s)) == ToLower(s)
  {
    assert forall i :: 0 <= i < |s| ==> LowerChar(LowerChar(s[i])) == LowerChar(s[i]);
  }

  /** `String.Split(sep)`: the pieces between separators, empty ones included; never an empty array. */
  function Split(s: string, sep: char): (parts: seq<string>)
    ensures |parts| >= 1
    ensures forall p :: p in parts ==> sep !in p
  {
    if s == [] then [""]
    else
      var rest := Split(s[1..], sep);
      if s[0] == sep then [""] + rest
      else
        assert rest[0] in rest;
        [[s[0]] + rest[0]] + rest[1..]
  }

  /** `String.Join(sep, parts)`. */
  function Join(parts: seq<string>, sep: char): string
    requires |parts| >= 1
  {
    if |parts| == 1 then parts[0] else parts[0] + [sep] + Join(parts[1..], sep)
  }

  /** Putting a character in front of the first piece puts it in front of the joined string. */
  lemma JoinPrepend(parts: seq<string>, c: char, sep: char)
    requires |parts| >= 1
    ensures Join([[c] + parts[0]] + parts[1..], sep) == [c] + Join(parts, sep)
  {
    var longer := [[c] + parts[0]] + parts[1..];
    if |parts| > 1 {
      assert longer[1..] == parts[1..];
    }
  }

  /** An empty first piece contributes only its separator. */
  lemma JoinEmptyFirst(rest: seq<string>, sep: char)
    requires |rest| >= 1
    ensures Join([""] + rest, sep) == [sep] + Join(rest, sep)
  {
    var longer := [""] + rest;
    assert longer[1..] == rest;
  }

  /** Joining the pieces back gives the original string. */
  lemma {:induction false} JoinSplit(s: string, sep: char)
    ensures Join(Split(s, sep), sep) == s
  {
    if s != [] {
      var rest := Split(s[1..], sep);
      JoinSplit(s[1..], sep);
      assert s == [s[0]] + s[1..];
      if s[0] == sep {
        JoinEmptyFirst(rest, sep);
      } else {
        JoinPrepend(rest, s[0], sep);
      }
    }
  }

  /** Splitting pieces that hold no separator, once joined, gives the pieces back. */
  lemma {:induction false} SplitJoin(parts: seq<string>, sep: char)
    requires |parts| >= 1
    requires forall p :: p in parts ==> sep !in p
    ensures Split(Join(parts, sep), sep) == parts
    decreases |parts|, |parts[0]|
  {
    var s := Join(parts, sep);
    if parts[0] == [] {
      if |parts| > 1 {
        assert s == [sep] + Join(parts[1..], sep);
        assert s[1..] == Join(parts[1..], sep);
        SplitJoin(parts[1..], sep);
        assert parts == [""] + parts[1..];
      }
    } else {
      var p0 := parts[0];
      var shorter := [p0[1..]] + parts[1..];
      assert p0 in parts;
      assert p0[0] != sep by { assert p0[0] in p0; }
      assert forall p :: p in shorter ==> sep !in p by {
        forall p | p in shorter ensures sep !in p {
          if p != p0[1..] {
            assert p in parts[1..];
          }
        }
      }
      assert shorter[1..] == parts[1..];
      if |parts| == 1 {
        assert Join(shorter, sep) == p0[1..];
      } else {
        assert Join(shorter, sep) == p0[1..] + [sep] + Join(parts[1..], sep);
      }
      assert s == [p0[0]] + Join(shorter, sep);
      assert s[1..] == Join(shorter, sep);
      SplitJoin(shorter, sep);
      assert [p0[0]] + p0[1..] == p0;
      assert parts == [[p0[0]] + shorter[0]] + shorter[1..];
    }
  }

  /** `String.IsNullOrWhiteSpace`'s notion of white space (`Char.IsWhiteSpace`). */
  predicate IsWhiteSpace(c: char)
  {
    || '\U{0009}' <= c <= '\U{000D}' || c == ' ' || c == '\U{0085}' || c == '\U{00A0}' || c == '\U{1680}'
    || '\U{2000}' <= c <= '\U{200A}' || c == '\U{2028}' || c == '\U{2029}' || c == '\U{202F}'
    || c == '\U{205F}' || c == '\U{3000}'
  }

  predicate IsNullOrWhiteSpace(s: Option<string>)
  {
    s.None? || forall i :: 0 <= i < |s.value| ==> IsWhiteSpace(s.value[i])
  }

  // ---------------------------------------------------------------------------
  // Map names

  /**
   * `ConvertAll(x => x.Name)`: the names of the maps in list order, or a
   * `NullReference` when the list holds a null map.
   */
  function MapNames(maps: seq<Option<DetailedMap>>): (r: Result<seq<Option<string>>, DataError>)
    ensures r.Failure? <==> None in maps
    ensures r.Failure? ==> r.error == NullReference
    ensures r.Success? ==> |r.value| == |maps| && forall i :: 0 <= i < |maps| ==> r.value[i] == maps[i].value.name
  {
    if maps == [] then Success([])
    else if maps[0].None? then Failure(NullReference)
    else
      match MapNames(maps[1..])
      case Failure(e) => Failure(e)
      case Success(rest) => Success([maps[0].value.name] + rest)
  }

  /** The names in list order without the null, empty and white-space-only ones. */
  function NonBlankNames(names: seq<Option<string>>): (kept: seq<string>)
    ensures |kept| <= |names|
    ensures forall n :: n in kept ==> Some(n) in names && !IsNullOrWhiteSpace(Some(n))
  {
    if names == [] then []
    else
      var rest := NonBlankNames(names[1..]);
      if IsNullOrWhiteSpace(names[0]) then rest else [names[0].value] + rest
  }

  /** Filtering works piece by piece, so the kept names keep their order. */
  lemma {:induction false} NonBlankNamesAppend(a: seq<Option<string>>, b: seq<Option<string>>)
    ensures NonBlankNames(a + b) == NonBlankNames(a) + NonBlankNames(b)
    decreases |a|
  {
    if a != [] {
      assert (a + b)[1..] == a[1..] + b;
      NonBlankNamesAppend(a[1..], b);
    } else {
      assert a + b == b;
    }
  }

  /** Every non-blank name is kept. */
  lemma {:induction false} NonBlankNamesComplete(names: seq<Option<string>>, n: string)
    requires Some(n) in names && !IsNullOrWhiteSpace(Some(n))
    ensures n in NonBlankNames(names)
    decreases |names|
  {
    if names[0] != Some(n) {
      assert Some(n) in names[1..];
      NonBlankNamesComplete(names[1..], n);
    }
  }

  /** A map list without null maps yields exactly the non-blank names of its maps. */
  lemma MapNameListExact(maps: seq<Option<DetailedMap>>, n: string)
    requires None !in maps
    ensures n in NonBlankNames(MapNames(maps).value) <==> Some(DetailedMap(Some(n))) in maps && !IsNullOrWhiteSpace(Some(n))
  {
    var names := MapNames(maps).value;
    if Some(DetailedMap(Some(n))) in maps && !IsNullOrWhiteSpace(Some(n)) {
      var i :| 0 <= i < |maps| && maps[i] == Some(DetailedMap(Some(n)));
      assert names[i] == Some(n);
      NonBlankNamesComplete(names, n);
    }
    if n in NonBlankNames(names) {
      var i :| 0 <= i < |names| && names[i] == Some(n);
      assert maps[i] == Some(DetailedMap(Some(n)));
    }
  }

  /** The position of the first name with an `_`-separated part equal to `requested`, or `|names|` when none has one. */
  function FirstWithPart(names: seq<string>, requested: string): (i: nat)
    ensures i <= |names|
    ensures i < |names| ==> requested in Split(names[i], '_')
    ensures forall j :: 0 <= j < i ==> requested !in Split(names[j], '_')
  {
    if names == [] then 0
    else if requested in Split(names[0], '_') then 0
    else 1 + FirstWithPart(names[1..], requested)
  }

  /** `ParseMapName`: the lowered name itself if listed, else the first listed name having it as a part. */
  function ParseMapName(mapNameList: Option<seq<string>>, requested: string): (r: Result<string, DataError>)
    ensures r.Success? ==> mapNameList.Some? && r.value in mapNameList.value
    ensures r == Failure(NullReference) <==> mapNameList.None?
  {
    if mapNameList.None? then Failure(NullReference)
    else
      var names, lower := mapNameList.value, ToLower(requested);
      if lower in names then Success(lower)
      else
        var i := FirstWithPart(names, lower);
        if i < |names| then Success(names[i]) else Failure(MapNotFound)
  }

  /**
   * What `ParseMapName` promises: an exactly listed (lowered) name is itself;
   * otherwise the answer is the first listed name with the name as an
   * `_`-separated part, and "Map not found" means no listed name has it.
   */
  lemma ParseMapNameChoice(names: seq<string>, requested: string)
    ensures ToLower(requested) in names ==> ParseMapName(Some(names), requested) == Success(ToLower(requested))
    ensures ToLower(requested) !in names ==>
      (ParseMapName(Some(names), requested) == Failure(MapNotFound) <==> forall n :: n in names ==> ToLower(requested) !in Split(n, '_'))
    ensures ToLower(requested) !in names && ParseMapName(Some(names), requested).Success? ==>
      var i := FirstWithPart(names, ToLower(requested));
      && i < |names| && ParseMapName(Some(names), requested).value == names[i]
      && ToLower(requested) in Split(names[i], '_')
      && forall j :: 0 <= j < i ==> ToLower(requested) !in Split(names[j], '_')
  {
    var lower := ToLower(requested);
    if lower !in names && FirstWithPart(names, lower) == |names| {
      forall n | n in names ensures lower !in Split(n, '_') {
        var j :| 0 <= j < |names| && names[j] == n;
      }
    }
  }

  /** The resolved name never depends on the case the user typed. */
  lemma ParseMapNameIgnoresCase(names: seq<string>, requested: string)
    ensures ParseMapName(Some(names), ToLower(requested)) == ParseMapName(Some(names), requested)
  {
    ToLowerIdempotent(requested);
  }

  // ---------------------------------------------------------------------------
  // The overview cache

  /**
   * `AddMapOverviewCacheItem`: insert at the front, and when that makes the
   * cache longer than `capacity` remove `Count - capacity` entries from
   * index `capacity - 1`.
   */
  function InsertCacheItem(cache: seq<Option<MapOverview>>, item: Option<MapOverview>, capacity: nat): (r: seq<Option<MapOverview>>)
    requires capacity >= 1
    ensures |r| >= 1
    ensures capacity >= 2 || cache == [] ==> r[0] == item
  {
    var grown := [item] + cache;
    var countToRemove := |grown| - capacity;
    if countToRemove <= 0 then grown
    else grown[..capacity - 1] + grown[capacity - 1 + countToRemove..]
  }

  /** Nothing is removed while the cache, the new entry included, fits. */
  lemma CacheKeepsAllWithinCapacity(cache: seq<Option<MapOverview>>, item: Option<MapOverview>, capacity: nat)
    requires capacity >= 1 && |cache| + 1 <= capacity
    ensures InsertCacheItem(cache, item, capacity) == [item] + cache
  {
  }

  /** A cache that fitted its capacity still fits it after an insertion. */
  lemma CacheStaysWithinCapacity(cache: seq<Option<MapOverview>>, item: Option<MapOverview>, capacity: nat)
    requires capacity >= 1 && |cache| <= capacity
    ensures |InsertCacheItem(cache, item, capacity)| <= capacity
  {
  }

  /**
   * On overflow the removal range ends one short of the end, so the oldest
   * entry survives every insertion: a full cache evicts its second-oldest
   * entry instead.
   */
  lemma CacheKeepsOldest(cache: seq<Option<MapOverview>>, item: Option<MapOverview>, capacity: nat)
    requires capacity >= 1 && |cache| >= 1
    ensures var r := InsertCacheItem(cache, item, capacity); r[|r| - 1] == cache[|cache| - 1]
  {
  }

  /** With room for one overview only, the removal range starts at 0 and takes the new overview itself. */
  lemma SingleSlotCacheNeverChanges(cache: seq<Option<MapOverview>>, item: Option<MapOverview>)
    requires |cache| == 1
    ensures InsertCacheItem(cache, item, 1) == cache
  {
  }

  lemma FullCacheEvictsSecondOldest(cache: seq<Option<MapOverview>>, item: Option<MapOverview>, capacity: nat)
    requires capacity >= 2 && |cache| == capacity
    ensures InsertCacheItem(cache, item, capacity) == [item] + cache[..capacity - 2] + [cache[capacity - 1]]
  {
    var grown := [item] + cache;
    assert grown[..capacity - 1] == [item] + cache[..capacity - 2];
    assert grown[capacity..] == [cache[capacity - 1]];
  }

  /** Whether the `First` lambda stops at `entry` with a match. */
  predicate NamedAs(entry: Option<MapOverview>, name: string)
  {
    entry.Some? && entry.value.mapInfo.Some? && entry.value.mapInfo.value.name == name
  }

  /**
   * Where `First(x => x.MapInfo.Name == name)` stops: at the first entry that
   * matches, or at the first one whose `MapInfo` cannot be read (a null
   * entry or a null `MapInfo`, which throw), or at the end.
   */
  function CacheScan(cache: seq<Option<MapOverview>>, name: string): (i: nat)
    ensures i <= |cache|
    ensures forall j :: 0 <= j < i ==> cache[j].Some? && cache[j].value.mapInfo.Some? && !NamedAs(cache[j], name)
    ensures i < |cache| ==> NamedAs(cache[i], name) || cache[i].None? || cache[i].value.mapInfo.None?
  {
    if cache == [] then 0
    else if cache[0].None? || cache[0].value.mapInfo.None? || NamedAs(cache[0], name) then 0
    else 1 + CacheScan(cache[1..], name)
  }

  /**
   * `GetFullMapOverViewAsync` against the cache: the resolved name's first
   * cached overview, or else `fetched` (what the request returns), which is
   * then cached. The new cache is the second component.
   */
  function OverviewLookup(cache: seq<Option<MapOverview>>, mapNameList: Option<seq<string>>, requested: string, fetched: Option<MapOverview>, capacity: nat)
    : (Result<Option<MapOverview>, DataError>, seq<Option<MapOverview>>)
    requires capacity >= 1
  {
    var name := ParseMapName(mapNameList, requested);
    if name.Failure? then (Failure(name.error), cache)
    else
      var i := CacheScan(cache, name.value);
      if i < |cache| && NamedAs(cache[i], name.value) then (Success(cache[i]), cache)
      else (Success(fetched), InsertCacheItem(cache, fetched, capacity))
  }

  /** A name that does not resolve fails the lookup and leaves the cache alone. */
  lemma OverviewLookupUnresolved(cache: seq<Option<MapOverview>>, mapNameList: Option<seq<string>>, requested: string, fetched: Option<MapOverview>, capacity: nat)
    requires capacity >= 1 && ParseMapName(mapNameList, requested).Failure?
    ensures OverviewLookup(cache, mapNameList, requested, fetched, capacity) == (Failure(ParseMapName(mapNameList, requested).error), cache)
  {
  }

  /**
   * After a miss that fetched an overview of the resolved map, asking for the
   * same map again is answered from the cache, which stays as it is.
   */
  lemma OverviewLookupCachesFetched(cache: seq<Option<MapOverview>>, mapNameList: Option<seq<string>>, requested: string, fetched: Option<MapOverview>, other: Option<MapOverview>, capacity: nat)
    requires capacity >= 2
    requires ParseMapName(mapNameList, requested).Success?
    requires NamedAs(fetched, ParseMapName(mapNameList, requested).value)
    requires OverviewLookup(cache, mapNameList, requested, fetched, capacity).1 != cache
    ensures var cache' := OverviewLookup(cache, mapNameList, requested, fetched, capacity).1;
      OverviewLookup(cache', mapNameList, requested, other, capacity) == (Success(fetched), cache')
  {
  }

  /**
   * In a cache of readable overviews, a lookup of a resolvable name is a hit
   * exactly when some cached overview has that name, and the hit is the first one.
   */
  lemma OverviewLookupFindsFirst(cache: seq<Option<MapOverview>>, mapNameList: Option<seq<string>>, requested: string, fetched: Option<MapOverview>, capacity: nat, k: nat)
    requires capacity >= 1
    requires forall j :: 0 <= j < |cache| ==> cache[j].Some? && cache[j].value.mapInfo.Some?
    requires ParseMapName(mapNameList, requested).Success?
    requires k < |cache| && NamedAs(cache[k], ParseMapName(mapNameList, requested).value)
    requires forall j :: 0 <= j < k ==> !NamedAs(cache[j], ParseMapName(mapNameList, requested).value)
    ensures OverviewLookup(cache, mapNameList, requested, fetched, capacity) == (Success(cache[k]), cache)
  {
    var name := ParseMapName(mapNameList, requested).value;
    var i := CacheScan(cache, name);
    assert i == k by {
      if i < k {
        assert false;
      }
    }
  }

  lemma OverviewLookupMissInserts(cache: seq<Option<MapOverview>>, mapNameList: Option<seq<string>>, requested: string, fetched: Option<MapOverview>, capacity: nat)
    requires capacity >= 1
    requires forall j :: 0 <= j < |cache| ==> cache[j].Some? && cache[j].value.mapInfo.Some?
    requires ParseMapName(mapNameList, requested).Success?
    requires forall j :: 0 <= j < |cache| ==> !NamedAs(cache[j], ParseMapName(mapNameList, requested).value)
    ensures OverviewLookup(cache, mapNameList, requested, fetched, capacity) == (Success(fetched), InsertCacheItem(cache, fetched, capacity))
  {
  }

  // ---------------------------------------------------------------------------
  // The data-access object

  class TempusDataAccess {
    /** `TempusConstants.FullMapOverviewCacheSize`. */
    const capacity: nat
    var fullOverviewCache: seq<Option<MapOverview>>
    var mapList: Option<seq<Option<DetailedMap>>>
    var mapNameList: Option<seq<string>>

    ghost predicate Valid()
      reads this
    {
      capacity >= 1 && |fullOverviewCache| <= capacity
    }

    constructor(capacity: nat)
      requires capacity >= 1
      ensures Valid() && this.capacity == capacity
      ensures fullOverviewCache == [] && mapList.None? && mapNameList.None?
    {
      this.capacity := capacity;
      fullOverviewCache := [];
      mapList := None;
      mapNameList := None;
    }

    method AddMapOverviewCacheItem(fullOverview: Option<MapOverview>)
      requires Valid()
      modifies this`fullOverviewCache
      ensures Valid()
      ensures fullOverviewCache == InsertCacheItem(old(fullOverviewCache), fullOverview, capacity)
    {
      CacheStaysWithinCapacity(fullOverviewCache, fullOverview, capacity);
      fullOverviewCache := [fullOverview] + fullOverviewCache;
      var countToRemove := |fullOverviewCache| - capacity;
      if countToRemove <= 0 {
        return;
      }
      fullOverviewCache := fullOverviewCache[..capacity - 1] + fullOverviewCache[capacity - 1 + countToRemove..];
    }

    /** `GetFullMapOverViewAsync`, given what the overview request for the resolved name returns. */
    method GetFullMapOverview(requested: string, fetched: Option<MapOverview>) returns (r: Result<Option<MapOverview>, DataError>)
      requires Valid()
      modifies this`fullOverviewCache
      ensures Valid()
      ensures (r, fullOverviewCache) == OverviewLookup(old(fullOverviewCache), mapNameList, requested, fetched, capacity)
    {
      var i := 0;
      while i < |fullOverviewCache|
        invariant 0 <= i <= |fullOverviewCache|
        invariant forall j :: 0 <= j < i ==> fullOverviewCache[j].Some? && fullOverviewCache[j].value.mapInfo.Some?
        invariant ParseMapName(mapNameList, requested).Success? ==> i <= CacheScan(fullOverviewCache, ParseMapName(mapNameList, requested).value)
      {
        var x := fullOverviewCache[i];
        if x.None? || x.value.mapInfo.None? {
          break;
        }
        var name := ParseMapName(mapNameList, requested);
        if name.Failure? {
          break;
        }
        if x.value.mapInfo.value.name == name.value {
          return Success(x);
        }
        i := i + 1;
      }
      var name := ParseMapName(mapNameList, requested);
      if name.Failure? {
        return Failure(name.error);
      }
      AddMapOverviewCacheItem(fetched);
      return Success(fetched);
    }

    /**
     * `UpdateMapListAsync`, given what the detailed-map-list request returns.
     * The list is stored before its names are taken, so a null list or a
     * null map in it leaves `mapList` updated and `mapNameList` as it was.
     */
    method UpdateMapList(maps: Option<seq<Option<DetailedMap>>>) returns (r: Result<(), DataError>)
      modifies this`mapList, this`mapNameList
      ensures mapList == maps
      ensures (maps.None? || None in maps.value) ==> r == Failure(NullReference) && mapNameList == old(mapNameList)
      ensures maps.Some? && None !in maps.value ==> r.Success? && mapNameList == Some(NonBlankNames(MapNames(maps.value).value))
    {
      mapList := maps;
      if maps.None? {
        return Failure(NullReference);
      }
      var names := MapNames(maps.value);
      if names.Failure? {
        return Failure(names.error);
      }
      mapNameList := Some(NonBlankNames(names.value));
      return Success(());
    }
  }
}
