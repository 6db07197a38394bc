/**
 * QueryMaster's `LogFilterCollection`: an ordered list of log filters that
 * can be appended to, have a filter removed, be cleared, and have the
 * `Enabled` flag of all filters, or of the filters of one type, switched.
 *
 * Filters are objects: the collection holds references, `Remove` compares
 * references, and switching `Enabled` changes the filter objects themselves,
 * which anyone else holding them sees.
 */
module LogFilters {
  import opened Wrappers

  /** A `LogFilter`: its runtime type, named, and whether it is enabled. */
  class LogFilter {
    const kind: string
    var enabled: bool

    constructor(kind: string, enabled: bool)
      ensures this.kind == kind && this.enabled == enabled
    {
      this.kind := kind;
      this.enabled := enabled;
    }
  }

  /** `List.Remove`: the list without the first element equal to `x`, or the list itself when there is none. */
  function RemoveFirst<T(==)>(s: seq<T>, x: T): (r: seq<T>)
    ensures x !in s ==> r == s
    ensures x in s ==> |r| == |s| - 1
    ensures multiset(r) == multiset(s) - multiset{x}
  {
    if s == [] then []
    else if s[0] == x then
      assert s == [x] + s[1..];
      s[1..]
    else
      assert s == [s[0]] + s[1..];
      [s[0]] + RemoveFirst(s[1..], x)
  }

  /** Cutting out position `i > 0` keeps the head and cuts position `i - 1` out of the tail. */
  lemma CutAfterHead<T>(s: seq<T>, i: nat)
    requires 0 < i < |s|
    ensures s[..i] + s[i + 1..] == [s[0]] + (s[1..][..i - 1] + s[1..][i..])
    ensures s[1..][..i - 1] == s[..i][1..] && s[0] == s[..i][0]
  {
    assert s[..i] == [s[0]] + s[1..][..i - 1];
    assert s[i + 1..] == s[1..][i..];
  }

  /**
   * Removing `x` cuts the list at its first occurrence and keeps everything
   * before and after in order.
   */
  lemma {:induction false} RemoveFirstAt<T>(s: seq<T>, x: T, i: nat)
    requires i < |s| && s[i] == x && x !in s[..i]
    ensures RemoveFirst(s, x) == s[..i] + s[i + 1..]
    decreases i
  {
    if i > 0 {
      CutAfterHead(s, i);
      RemoveFirstAt(s[1..], x, i - 1);
    }
  }

  /** Adding a filter that is not yet in the collection and removing it again restores the collection. */
  lemma {:induction false} RemoveUndoesAdd<T>(s: seq<T>, x: T)
    requires x !in s
    ensures RemoveFirst(s + [x], x) == s
  {
    assert (s + [x])[..|s|] == s;
    RemoveFirstAt(s + [x], x, |s|);
    assert (s + [x])[|s| + 1..] == [];
  }

  /** What `Enabled` becomes under the filter switch for `only` (every type when `None`). */
  function Switched(f: LogFilter, only: Option<string>, value: bool, was: bool): bool
  {
    if only.None? || f.kind == only.value then value else was
  }

  /** The exception the switches end with. */
  datatype SwitchError = NullReference   // `ForEach` reached a null filter

  /** The position of the first null filter, or `|s|` when there is none. */
  function FirstNull(s: seq<LogFilter?>): (i: nat)
    ensures i <= |s|
    ensures i < |s| ==> s[i] == null
    ensures forall j :: 0 <= j < i ==> s[j] != null
    ensures i == |s| <==> null !in s
  {
    if s == [] then 0
    else if s[0] == null then 0
    else
      var rest := FirstNull(s[1..]);
      assert null in s[1..] ==> null in s;
      assert null in s && s[0] != null ==> null in s[1..];
      1 + rest
  }

  /**
   * The collection of filters. `List<LogFilter>.Add` accepts null, so the
   * list holds possibly null references.
   */
  class LogFilterCollection {
    var filterList: seq<LogFilter?>

    constructor()
      ensures filterList == []
    {
      filterList := [];
    }

    /** `GetEnumerator`: the filters, one at a time, in list order. */
    method Enumerate() returns (items: seq<LogFilter?>)
      ensures items == filterList
    {
      items := [];
      var i := 0;
      while i < |filterList|
        invariant 0 <= i <= |filterList|
        invariant items == filterList[..i]
      {
        items := items + [filterList[i]];
        i := i + 1;
      }
    }

    /** `Add`: the filter, null or not, goes at the end; everything before it stays where it was. */
    method Add(filter: LogFilter?)
      modifies this
      ensures filterList == old(filterList) + [filter]
    {
      filterList := filterList + [filter];
    }

    /** `Remove`: the first reference equal to `filter` leaves; an absent filter changes nothing. */
    method Remove(filter: LogFilter?)
      modifies this
      ensures filterList == RemoveFirst(old(filterList), filter)
    {
      filterList := RemoveFirst(filterList, filter);
    }

    method Clear()
      modifies this
      ensures filterList == []
    {
      filterList := [];
    }

    /**
     * The `ForEach` the four switches share: set `Enabled` of the selected
     * filters to `value`, in list order. At a null filter the lambda throws,
     * so the filters before it are switched and the ones after it are not.
     */
    method SetEnabled(only: Option<string>, value: bool) returns (r: Result<(), SwitchError>)
      modifies set f: LogFilter | f in filterList
      ensures r.Success? <==> null !in filterList
      ensures r.Failure? ==> r.error == NullReference
      ensures forall f: LogFilter :: f in filterList ==>
        f.enabled == if f in filterList[..FirstNull(filterList)] then Switched(f, only, value, old(f.enabled)) else old(f.enabled)
    {
      var i := 0;
      while i < |filterList|
        invariant 0 <= i <= FirstNull(filterList)
        invariant forall f: LogFilter :: f in filterList ==>
          f.enabled == if f in filterList[..i] then Switched(f, only, value, old(f.enabled)) else old(f.enabled)
      {
        var x := filterList[i];
        if x == null {
          return Failure(NullReference);
        }
        if only.None? || x.kind == only.value {
          x.enabled := value;
        }
        assert forall f :: f in filterList[..i + 1] <==> f in filterList[..i] || f == x;
        i := i + 1;
      }
      assert filterList[..i] == filterList[..FirstNull(filterList)];
      return Success(());
    }

    /** `EnableAll()`: every filter up to the first null is enabled; the rest keep their flag. */
    method EnableAll() returns (r: Result<(), SwitchError>)
      modifies set f: LogFilter | f in filterList
      ensures r.Success? <==> null !in filterList
      ensures forall f: LogFilter :: f in filterList[..FirstNull(filterList)] ==> f.enabled
      ensures forall f: LogFilter :: f in filterList && f !in filterList[..FirstNull(filterList)] ==> f.enabled == old(f.enabled)
    {
      r := SetEnabled(None, true);
    }

    /** `EnableAll(type)`: filters of that type up to the first null are enabled, every other one keeps its flag. */
    method EnableAllOfType(kind: string) returns (r: Result<(), SwitchError>)
      modifies set f: LogFilter | f in filterList
      ensures r.Success? <==> null !in filterList
      ensures forall f: LogFilter :: f in filterList[..FirstNull(filterList)] && f.kind == kind ==> f.enabled
      ensures forall f: LogFilter :: f in filterList && (f.kind != kind || f !in filterList[..FirstNull(filterList)]) ==> f.enabled == old(f.enabled)
    {
      r := SetEnabled(Some(kind), true);
    }

    /** `DisableAll()`: every filter up to the first null is disabled; the rest keep their flag. */
    method DisableAll() returns (r: Result<(), SwitchError>)
      modifies set f: LogFilter | f in filterList
      ensures r.Success? <==> null !in filterList
      ensures forall f: LogFilter :: f in filterList[..FirstNull(filterList)] ==> !f.enabled
      ensures forall f: LogFilter :: f in filterList && f !in filterList[..FirstNull(filterList)] ==> f.enabled == old(f.enabled)
    {
      r := SetEnabled(None, false);
    }

    /** `DisableAll(type)`: filters of that type up to the first null are disabled, every other one keeps its flag. */
    method DisableAllOfType(kind: string) returns (r: Result<(), SwitchError>)
      modifies set f: LogFilter | f in filterList
      ensures r.Success? <==> null !in filterList
      ensures forall f: LogFilter :: f in filterList[..FirstNull(filterList)] && f.kind == kind ==> !f.enabled
      ensures forall f: LogFilter :: f in filterList && (f.kind != kind || f !in filterList[..FirstNull(filterList)]) ==> f.enabled == old(f.enabled)
    {
      r := SetEnabled(Some(kind), false);
    }
  }
}
