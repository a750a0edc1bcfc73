/**
 * The header store behind a message. Its PHP class is not part of this
 * model; it is represented by its observable behaviour: an ordered list of
 * fields, each with the name it was first stored under and its values,
 * looked up by lower-cased name. Assigning to a name appends one value
 * (creating the field at the end if there was none); unsetting a name
 * removes the field.
 */
module HeaderCollection {
  import opened Wrappers
  import opened PhpStrings

  datatype Field = Field(name: string, values: seq<string>)

  type Collection = seq<Field>

  /** Header names compare case-insensitively. */
  predicate Same(a: string, b: string)
  {
    Lower(a) == Lower(b)
  }

  /** No two fields share a name up to case, and no field is without values. */
  ghost predicate WellFormed(c: Collection)
  {
    && (forall i, j :: 0 <= i < j < |c| ==> !Same(c[i].name, c[j].name))
    && (forall i :: 0 <= i < |c| ==> c[i].values != [])
  }

  /** The position of the first field whose name is the same as name. */
  function Find(c: Collection, name: string): (r: Option<nat>)
    ensures r.Some? ==> r.value < |c| && Same(c[r.value].name, name)
    ensures forall j :: 0 <= j < |c| && (r.None? || j < r.value) ==> !Same(c[j].name, name)
    decreases |c|
  {
    if |c| == 0 then None
    else if Same(c[0].name, name) then Some(0)
    else match Find(c[1..], name)
      case None => None
      case Some(k) => Some(k + 1)
  }

  /** isset($headers[$name]) */
  predicate Isset(c: Collection, name: string)
  {
    Find(c, name).Some?
  }

  lemma IssetIff(c: Collection, name: string)
    ensures Isset(c, name) <==> exists i :: 0 <= i < |c| && Same(c[i].name, name)
  {
  }

  /** $headers[$name]: the values stored under name, none when it is not set. */
  function Get(c: Collection, name: string): (r: seq<string>)
    ensures !Isset(c, name) ==> r == []
  {
    match Find(c, name)
    case Some(i) => c[i].values
    case None => []
  }

  /**
   * The field a lookup of name finds, with the spelling it is stored under
   * (the name getHeaders() reports for it) and its values.
   */
  function Lookup(c: Collection, name: string): (r: Option<Field>)
    ensures r.Some? <==> Isset(c, name)
    ensures r.Some? ==> r.value in c && Same(r.value.name, name) && r.value.values == Get(c, name)
  {
    match Find(c, name)
    case Some(i) => Some(c[i])
    case None => None
  }

  /** In a well-formed store a name has values exactly when it is set. */
  lemma GetNonEmpty(c: Collection, name: string)
    requires WellFormed(c)
    ensures Get(c, name) != [] <==> Isset(c, name)
  {
  }

  /** Names that are the same up to case find the same field. */
  lemma FindSame(c: Collection, a: string, b: string)
    requires Same(a, b)
    ensures Find(c, a) == Find(c, b)
  {
    match Find(c, a)
    case None =>
    case Some(k) =>
      assert Same(c[k].name, b);
  }

  /** Find is determined by the field names alone. */
  lemma {:induction false} FindByNames(a: Collection, b: Collection, name: string)
    requires |a| == |b|
    requires forall i :: 0 <= i < |a| ==> a[i].name == b[i].name
    ensures Find(a, name) == Find(b, name)
  {
    match Find(a, name)
    case None =>
      assert forall j :: 0 <= j < |b| ==> !Same(b[j].name, name) by {
        forall j | 0 <= j < |b| ensures !Same(b[j].name, name) {
          assert a[j].name == b[j].name;
        }
      }
    case Some(k) =>
      assert Same(b[k].name, name);
  }

  /** A field appended at the end does not change what an earlier lookup finds. */
  lemma FindExtend(c: Collection, f: Field, name: string)
    requires !Same(f.name, name)
    ensures Find(c + [f], name) == Find(c, name)
  {
    var d := c + [f];
    assert forall j :: 0 <= j < |c| ==> d[j] == c[j];
    match Find(c, name)
    case None =>
      assert forall j :: 0 <= j < |d| ==> !Same(d[j].name, name);
    case Some(k) =>
      assert Same(d[k].name, name);
  }

  /** Lookup in a non-empty collection looks at the first field, then at the rest. */
  lemma GetCons(c: Collection, n: string)
    requires c != []
    ensures Get(c, n) == if Same(c[0].name, n) then c[0].values else Get(c[1..], n)
  {
  }

  /** Lookup in a non-empty collection looks at the first field, then at the rest. */
  lemma LookupCons(c: Collection, n: string)
    requires c != []
    ensures Lookup(c, n) == if Same(c[0].name, n) then Some(c[0]) else Lookup(c[1..], n)
  {
    if !Same(c[0].name, n) {
      match Find(c[1..], n)
      case None =>
      case Some(k) => assert c[k + 1] == c[1..][k];
    }
  }

  /** A field appended to a store where name is not set is the one name finds. */
  lemma FindAppended(c: Collection, f: Field, name: string)
    requires !Isset(c, name) && Same(f.name, name)
    ensures Find(c + [f], name) == Some(|c|)
  {
    var d := c + [f];
    assert forall j :: 0 <= j < |c| ==> d[j] == c[j];
    assert Same(d[|c|].name, name);
  }

  // ---------------------------------------------------------------------------
  // Assignment

  /** $headers[$name] = $value: appends value to the field named name. */
  function Set(c: Collection, name: string, value: string): (r: Collection)
    ensures |r| == if Isset(c, name) then |c| else |c| + 1
  {
    match Find(c, name)
    case Some(i) => c[i := Field(c[i].name, c[i].values + [value])]
    case None => c + [Field(name, [value])]
  }

  /** Assignment adds value after the name's values and leaves every other name alone. */
  lemma SetGet(c: Collection, name: string, value: string, n: string)
    ensures Get(Set(c, name, value), n) == if Same(n, name) then Get(c, n) + [value] else Get(c, n)
  {
    var r := Set(c, name, value);
    match Find(c, name)
    case Some(i) =>
      FindByNames(r, c, n);
      if Same(n, name) { FindSame(c, n, name); }
    case None =>
      if Same(n, name) {
        FindSame(c, n, name);
        FindSame(r, n, name);
        assert forall j :: 0 <= j < |c| ==> r[j] == c[j];
        assert Same(r[|c|].name, name);
      } else {
        FindExtend(c, Field(name, [value]), n);
      }
  }

  lemma SetWellFormed(c: Collection, name: string, value: string)
    requires WellFormed(c)
    ensures WellFormed(Set(c, name, value))
  {
    var r := Set(c, name, value);
    match Find(c, name)
    case Some(i) =>
      assert forall k :: 0 <= k < |c| ==> r[k].name == c[k].name;
    case None =>
      assert forall k :: 0 <= k < |c| ==> r[k] == c[k];
  }

  /**
   * After assignment name finds its field under the spelling it already had,
   * or under name itself when the field is new, with value after the old values.
   */
  lemma SetLookup(c: Collection, name: string, value: string)
    ensures Lookup(Set(c, name, value), name) ==
      Some(Field(if Isset(c, name) then Lookup(c, name).value.name else name, Get(c, name) + [value]))
  {
    var r := Set(c, name, value);
    match Find(c, name)
    case Some(i) =>
      FindByNames(r, c, name);
    case None =>
      FindAppended(c, Field(name, [value]), name);
      assert r[|c|] == Field(name, [value]);
      assert Lookup(r, name) == Some(Field(name, [value]));
      assert !Isset(c, name) && Get(c, name) + [value] == [value];
  }

  /** Assignment leaves the field of every other name, spelling and values, as it was. */
  lemma SetLookupOther(c: Collection, name: string, value: string, n: string)
    requires !Same(n, name)
    ensures Lookup(Set(c, name, value), n) == Lookup(c, n)
  {
    var r := Set(c, name, value);
    match Find(c, name)
    case Some(i) =>
      FindByNames(r, c, n);
    case None =>
      FindExtend(c, Field(name, [value]), n);
      assert forall j :: 0 <= j < |c| ==> r[j] == c[j];
  }

  /** Assigns each of values to name in turn. */
  function SetAll(c: Collection, name: string, values: seq<string>): (r: Collection)
    ensures |c| <= |r| <= |c| + |values|
    decreases |values|
  {
    if values == [] then c
    else Set(SetAll(c, name, values[..|values| - 1]), name, values[|values| - 1])
  }

  /** SetAll over a longer list is SetAll up to its last value, then one more assignment. */
  lemma SetAllStep(c: Collection, name: string, values: seq<string>, i: nat)
    requires i < |values|
    ensures SetAll(c, name, values[..i + 1]) == Set(SetAll(c, name, values[..i]), name, values[i])
  {
    assert values[..i + 1][..i] == values[..i];
  }

  lemma {:induction false} SetAllGet(c: Collection, name: string, values: seq<string>, n: string)
    ensures Get(SetAll(c, name, values), n) == if Same(n, name) then Get(c, n) + values else Get(c, n)
    decreases |values|
  {
    if values != [] {
      var init := values[..|values| - 1];
      SetAllGet(c, name, init, n);
      SetGet(SetAll(c, name, init), name, values[|values| - 1], n);
      assert init + [values[|values| - 1]] == values;
    }
  }

  lemma {:induction false} SetAllWellFormed(c: Collection, name: string, values: seq<string>)
    requires WellFormed(c)
    ensures WellFormed(SetAll(c, name, values))
    decreases |values|
  {
    if values != [] {
      SetAllWellFormed(c, name, values[..|values| - 1]);
      SetWellFormed(SetAll(c, name, values[..|values| - 1]), name, values[|values| - 1]);
    }
  }

  /** Assigning to a name that is set extends that field in place. */
  lemma SetExisting(c: Collection, name: string, value: string, i: nat)
    requires Find(c, name) == Some(i)
    ensures Set(c, name, value) == c[i := Field(c[i].name, c[i].values + [value])]
    ensures Find(Set(c, name, value), name) == Some(i)
  {
    FindByNames(Set(c, name, value), c, name);
  }

  /** Assigning a list to a name that is set extends that field in place, keeping its spelling. */
  lemma {:induction false} SetAllExisting(c: Collection, name: string, values: seq<string>, i: nat)
    requires Find(c, name) == Some(i)
    ensures Find(SetAll(c, name, values), name) == Some(i)
    ensures SetAll(c, name, values) == c[i := Field(c[i].name, c[i].values + values)]
    decreases |values|
  {
    if values == [] {
      assert c[i].values + values == c[i].values;
      assert c[i := Field(c[i].name, c[i].values)] == c;
    } else {
      var init := values[..|values| - 1];
      var last := values[|values| - 1];
      SetAllExisting(c, name, init, i);
      var s := SetAll(c, name, init);
      SetExisting(s, name, last, i);
      assert SetAll(c, name, values) == Set(s, name, last);
      assert s[i].values + [last] == c[i].values + values by {
        assert init + [last] == values;
      }
    }
  }

  /** Assigning a non-empty list keeps the spelling of an existing field, or uses name for a new one. */
  lemma SetAllLookup(c: Collection, name: string, values: seq<string>)
    requires values != []
    ensures Lookup(SetAll(c, name, values), name) ==
      Some(Field(if Isset(c, name) then Lookup(c, name).value.name else name, Get(c, name) + values))
  {
    match Find(c, name)
    case Some(i) =>
      SetAllExisting(c, name, values, i);
    case None =>
      SetAllNew(c, name, values);
      FindAppended(c, Field(name, values), name);
      assert Get(c, name) + values == values;
  }

  lemma {:induction false} SetAllLookupOther(c: Collection, name: string, values: seq<string>, n: string)
    requires !Same(n, name)
    ensures Lookup(SetAll(c, name, values), n) == Lookup(c, n)
    decreases |values|
  {
    if values != [] {
      SetAllLookupOther(c, name, values[..|values| - 1], n);
      SetLookupOther(SetAll(c, name, values[..|values| - 1]), name, values[|values| - 1], n);
    }
  }

  /** Assigning a list to a name that is not set appends one field, spelled name, holding the list. */
  lemma {:induction false} SetAllNew(c: Collection, name: string, values: seq<string>)
    requires !Isset(c, name) && values != []
    ensures SetAll(c, name, values) == c + [Field(name, values)]
    decreases |values|
  {
    var init := values[..|values| - 1];
    var last := values[|values| - 1];
    if init == [] {
      assert values == [last];
    } else {
      SetAllNew(c, name, init);
      FindAppended(c, Field(name, init), name);
      assert init + [last] == values;
      assert (c + [Field(name, init)])[|c| := Field(name, values)] == c + [Field(name, values)];
    }
  }

  // ---------------------------------------------------------------------------
  // Removal

  /** unset($headers[$name]): removes the field named name, keeping the order of the rest. */
  function Unset(c: Collection, name: string): (r: Collection)
    ensures |r| <= |c|
    decreases |c|
  {
    if |c| == 0 then []
    else if Same(c[0].name, name) then Unset(c[1..], name)
    else [c[0]] + Unset(c[1..], name)
  }

  lemma {:induction false} UnsetRemoves(c: Collection, name: string)
    ensures !Isset(Unset(c, name), name)
    decreases |c|
  {
    if |c| > 0 {
      UnsetRemoves(c[1..], name);
      var r := Unset(c, name);
      if !Same(c[0].name, name) {
        assert r[1..] == Unset(c[1..], name);
        GetCons(r, name);
      }
    }
  }

  lemma {:induction false} UnsetKeepsOthers(c: Collection, name: string, n: string)
    requires !Same(n, name)
    ensures Get(Unset(c, name), n) == Get(c, n)
    decreases |c|
  {
    if |c| > 0 {
      UnsetKeepsOthers(c[1..], name, n);
      GetCons(c, n);
      var r := Unset(c, name);
      if !Same(c[0].name, name) {
        assert r[1..] == Unset(c[1..], name);
        GetCons(r, n);
      }
    }
  }

  /** Unset leaves the field of every other name, spelling and values, as it was. */
  lemma {:induction false} UnsetLookupOther(c: Collection, name: string, n: string)
    requires !Same(n, name)
    ensures Lookup(Unset(c, name), n) == Lookup(c, n)
    decreases |c|
  {
    if |c| > 0 {
      UnsetLookupOther(c[1..], name, n);
      LookupCons(c, n);
      var r := Unset(c, name);
      if !Same(c[0].name, name) {
        assert r[1..] == Unset(c[1..], name);
        LookupCons(r, n);
      }
    }
  }

  /** After unset the name has no values and every other name keeps its own. */
  lemma UnsetGet(c: Collection, name: string, n: string)
    ensures Get(Unset(c, name), n) == if Same(n, name) then [] else Get(c, n)
  {
    if Same(n, name) {
      UnsetRemoves(c, name);
      FindSame(Unset(c, name), n, name);
    } else {
      UnsetKeepsOthers(c, name, n);
    }
  }

  /** Every field left by Unset was a field before. */
  lemma {:induction false} UnsetSubset(c: Collection, name: string)
    ensures forall f :: f in Unset(c, name) ==> f in c
    decreases |c|
  {
    if |c| > 0 {
      UnsetSubset(c[1..], name);
      assert forall f :: f in c[1..] ==> f in c;
    }
  }

  lemma {:induction false} UnsetWellFormed(c: Collection, name: string)
    requires WellFormed(c)
    ensures WellFormed(Unset(c, name))
    decreases |c|
  {
    if |c| > 0 {
      var tail := c[1..];
      assert WellFormed(tail) by {
        assert forall i, j :: 0 <= i < j < |tail| ==> tail[i] == c[i + 1] && tail[j] == c[j + 1];
      }
      UnsetWellFormed(tail, name);
      if !Same(c[0].name, name) {
        var rest := Unset(tail, name);
        var r := [c[0]] + rest;
        UnsetSubset(tail, name);
        forall j | 0 < j < |r| ensures !Same(r[0].name, r[j].name) {
          assert r[j] == rest[j - 1];
          assert r[j] in tail;
          var m :| 0 <= m < |tail| && tail[m] == r[j];
          assert c[m + 1] == r[j];
        }
        forall i, j | 0 < i < j < |r| ensures !Same(r[i].name, r[j].name) {
          assert r[i] == rest[i - 1] && r[j] == rest[j - 1];
        }
        forall i | 0 <= i < |r| ensures r[i].values != [] {
          if i > 0 { assert r[i] == rest[i - 1]; }
        }
      }
    }
  }

  // ---------------------------------------------------------------------------
  // Replacement

  /**
   * What withHeader does to the store: unset name, then assign each value in
   * turn. The other fields keep their order, and the field of name, spelled as
   * name and holding exactly values, comes last.
   */
  function Replace(c: Collection, name: string, values: seq<string>): (r: Collection)
    ensures r == Unset(c, name) + (if values == [] then [] else [Field(name, values)])
  {
    ReplaceShape(c, name, values);
    SetAll(Unset(c, name), name, values)
  }

  lemma ReplaceShape(c: Collection, name: string, values: seq<string>)
    ensures SetAll(Unset(c, name), name, values) == Unset(c, name) + (if values == [] then [] else [Field(name, values)])
  {
    UnsetRemoves(c, name);
    if values != [] {
      SetAllNew(Unset(c, name), name, values);
    } else {
      assert Unset(c, name) + [] == Unset(c, name);
    }
  }

  /** After replacement the name has exactly the new values; other names keep theirs. */
  lemma ReplaceGet(c: Collection, name: string, values: seq<string>, n: string)
    ensures Get(Replace(c, name, values), n) == if Same(n, name) then values else Get(c, n)
  {
    SetAllGet(Unset(c, name), name, values, n);
    UnsetGet(c, name, n);
  }

  /** After replacement name finds a field spelled exactly as name, or none for no values. */
  lemma ReplaceKeepsSpelling(c: Collection, name: string, values: seq<string>)
    ensures Lookup(Replace(c, name, values), name) == if values == [] then None else Some(Field(name, values))
  {
    UnsetRemoves(c, name);
    if values != [] {
      SetAllLookup(Unset(c, name), name, values);
      UnsetGet(c, name, name);
    }
  }

  /** Replacement leaves the field of every other name, spelling and values, as it was. */
  lemma ReplaceLookupOther(c: Collection, name: string, values: seq<string>, n: string)
    requires !Same(n, name)
    ensures Lookup(Replace(c, name, values), n) == Lookup(c, n)
  {
    SetAllLookupOther(Unset(c, name), name, values, n);
    UnsetLookupOther(c, name, n);
  }

  lemma ReplaceWellFormed(c: Collection, name: string, values: seq<string>)
    requires WellFormed(c)
    ensures WellFormed(Replace(c, name, values))
  {
    UnsetWellFormed(c, name);
    SetAllWellFormed(Unset(c, name), name, values);
  }
}
