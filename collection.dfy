/** `ReferenceCollection` in LR4.py, together with `sort_by`, which the
    program defines on a subclass but always calls on a plain collection:
    an ordered list of certificate objects with its own iteration cursor. */
module Collection {
  import opened PyValues
  import opened Order
  import opened StableSort
  import opened References
  import opened Csv

  /** The two keys `sort_by` knows. */
  datatype SortField = ByName | ByStipend

  /** `sort_by`'s dispatch on its argument: 'name', 'stipend', or neither. */
  function FieldFor(field: string): Option<SortField>
  {
    if field == "name" then Some(ByName)
    else if field == "stipend" then Some(ByStipend)
    else None
  }

  /** The sort key: `lambda x: x.full_name` or `lambda x: x.stipend`. */
  function Key(r: StudentReference, f: SortField): Value
    reads r
  {
    match f
    case ByName => r.fullName
    case ByStipend => r.stipend
  }

  /** Python raises TypeError as soon as the sort compares two keys that
      are not both str or both float; a list of at most one element is
      never compared. */
  predicate Comparable(s: seq<StudentReference>, f: SortField)
    reads s
  {
    |s| <= 1
    || (forall r :: r in s ==> Key(r, f).PyStr?)
    || (forall r :: r in s ==> Key(r, f).PyFloat?)
  }

  /** Each element paired with its key, as `list.sort(key=...)` does first. */
  function Decorate(s: seq<StudentReference>, f: SortField): (p: seq<(Value, StudentReference)>)
    reads s
    ensures |p| == |s|
    ensures forall i :: 0 <= i < |s| ==> p[i] == (Key(s[i], f), s[i])
  {
    if s == [] then [] else [(Key(s[0], f), s[0])] + Decorate(s[1..], f)
  }

  /** The list `sort_by` leaves: decorate, sort stably by key, undecorate. */
  function SortedBy(s: seq<StudentReference>, f: SortField): seq<StudentReference>
    reads s
  {
    Items(Sort(Decorate(s, f)))
  }

  /** The elements of `s` whose key is `k`, in their order in `s`. */
  function KeyedAs(s: seq<StudentReference>, f: SortField, k: Value): seq<StudentReference>
    reads s
  {
    if s == [] then [] else (if Key(s[0], f) == k then [s[0]] else []) + KeyedAs(s[1..], f, k)
  }

  lemma ItemsOfDecorate(s: seq<StudentReference>, f: SortField)
    ensures Items(Decorate(s, f)) == s
  {
  }

  /** Every pair of a rearranged decoration still carries its element's key. */
  lemma {:induction false} SortedPairsKeyed(s: seq<StudentReference>, f: SortField)
    ensures forall x :: x in Sort(Decorate(s, f)) ==> x.0 == Key(x.1, f)
  {
    var d := Decorate(s, f);
    SortPermutes(d);
    forall x | x in Sort(d)
      ensures x.0 == Key(x.1, f)
    {
      assert x in multiset(Sort(d));
      assert x in multiset(d);
      var m :| 0 <= m < |d| && d[m] == x;
    }
  }

  /** sort_by only rearranges the list. */
  lemma SortedByPermutes(s: seq<StudentReference>, f: SortField)
    ensures multiset(SortedBy(s, f)) == multiset(s)
  {
    SortPermutesItems(Decorate(s, f));
    ItemsOfDecorate(s, f);
  }

  /** After sort_by, keys never decrease along the list. */
  lemma SortedByOrdered(s: seq<StudentReference>, f: SortField)
    ensures forall i, j :: 0 <= i < j < |SortedBy(s, f)| ==>
      KeyLe(Key(SortedBy(s, f)[i], f), Key(SortedBy(s, f)[j], f))
  {
    var p := Sort(Decorate(s, f));
    SortSorted(Decorate(s, f));
    SortedPairsKeyed(s, f);
    forall i, j | 0 <= i < j < |p|
      ensures KeyLe(Key(Items(p)[i], f), Key(Items(p)[j], f))
    {
      assert p[i] in p && p[j] in p;
    }
  }

  lemma {:induction false} KeyedAsItems(q: seq<(Value, StudentReference)>, f: SortField, k: Value)
    requires forall x :: x in q ==> x.0 == Key(x.1, f)
    ensures KeyedAs(Items(q), f, k) == Items(WithKey(q, k))
  {
    if q != [] {
      KeyedAsItems(q[1..], f, k);
      assert Items(q)[1..] == Items(q[1..]);
      assert q[0] in q;
      var w := if q[0].0 == k then [q[0]] else [];
      assert Items(w + WithKey(q[1..], k)) == Items(w) + Items(WithKey(q[1..], k));
    }
  }

  /** sort_by is stable: the elements sharing a key keep their relative order. */
  lemma SortedByStable(s: seq<StudentReference>, f: SortField, k: Value)
    ensures KeyedAs(SortedBy(s, f), f, k) == KeyedAs(s, f, k)
  {
    var d := Decorate(s, f);
    SortedPairsKeyed(s, f);
    KeyedAsItems(Sort(d), f, k);
    SortStable(d, k);
    KeyedAsItems(d, f, k);
    ItemsOfDecorate(s, f);
  }

  /** How the loop in `from_csv` advances over row i: a failing row fails
      the whole load, a good one extends the records loaded so far. */
  lemma LoadRowsStep(rows: seq<Row>, i: nat, parse: string -> Option<real>)
    requires i < |rows|
    ensures RowToReference(rows[i], parse).None? ==> LoadRows(rows, parse).None?
    ensures LoadRows(rows[..i], parse).Some? && RowToReference(rows[i], parse).Some? ==>
      LoadRows(rows[..i + 1], parse) == Some(LoadRows(rows[..i], parse).value + [RowToReference(rows[i], parse).value])
  {
    if RowToReference(rows[i], parse).None? {
      LoadRowsFails(rows, parse);
    } else {
      TakeOneMore(rows, i);
      LoadRowsSnoc(rows[..i], rows[i], parse);
    }
  }

  lemma TakeOneMore<T>(s: seq<T>, i: nat)
    requires i < |s|
    ensures s[..i + 1] == s[..i] + [s[i]]
  {
  }

  /** What a stable sort by `f` promises of the list `after` it leaves in
      place of `before`: the same elements, keys never decreasing, and the
      elements sharing a key in their old relative order. */
  ghost predicate StablySorted(before: seq<StudentReference>, after: seq<StudentReference>, f: SortField)
    reads before, after
  {
    && multiset(after) == multiset(before)
    && (forall i, j :: 0 <= i < j < |after| ==> KeyLe(Key(after[i], f), Key(after[j], f)))
    && (forall k :: KeyedAs(after, f, k) == KeyedAs(before, f, k))
  }

  /** sort_by's result is a stable sort of its input. */
  lemma SortedBySpec(s: seq<StudentReference>, f: SortField)
    ensures StablySorted(s, SortedBy(s, f), f)
  {
    SortedByPermutes(s, f);
    SortedByOrdered(s, f);
    forall k ensures KeyedAs(SortedBy(s, f), f, k) == KeyedAs(s, f, k) {
      SortedByStable(s, f, k);
    }
  }

  /** Sorting twice by the same key is sorting once. */
  lemma SortedByIdempotent(s: seq<StudentReference>, f: SortField)
    ensures SortedBy(SortedBy(s, f), f) == SortedBy(s, f)
  {
    var p := Sort(Decorate(s, f));
    SortedPairsKeyed(s, f);
    assert Decorate(Items(p), f) == p;
    SortSorted(Decorate(s, f));
    SortOfSorted(p);
  }

  /** `item.stipend > value` for a float stipend. */
  predicate Exceeds(r: StudentReference, v: real)
    reads r
  {
    r.stipend.PyFloat? && r.stipend.x > v
  }

  /** What `filter_by_stipend(v)` yields over the list `s`, in order. */
  function Above(s: seq<StudentReference>, v: real): seq<StudentReference>
    reads s
  {
    if s == [] then [] else (if Exceeds(s[0], v) then [s[0]] else []) + Above(s[1..], v)
  }

  /** Filtering commutes with concatenation: the kept elements appear in
      their original relative order. */
  lemma {:induction false} AboveAppend(a: seq<StudentReference>, b: seq<StudentReference>, v: real)
    ensures Above(a + b, v) == Above(a, v) + Above(b, v)
  {
    if a != [] {
      assert (a + b)[1..] == a[1..] + b;
      assert (a + b)[0] == a[0];
      AboveAppend(a[1..], b, v);
    } else {
      assert a + b == b;
    }
  }

  /** Exactly the elements whose stipend exceeds v are kept, each as often
      as it occurs. */
  lemma {:induction false} AboveExactly(s: seq<StudentReference>, v: real)
    ensures forall x :: x in Above(s, v) ==> x in s && Exceeds(x, v)
    ensures forall x :: x in s ==>
      multiset(Above(s, v))[x] == if Exceeds(x, v) then multiset(s)[x] else 0
  {
    if s != [] {
      AboveExactly(s[1..], v);
      var h := if Exceeds(s[0], v) then [s[0]] else [];
      assert Above(s, v) == h + Above(s[1..], v);
      assert s == [s[0]] + s[1..];
      forall x | x in s
        ensures multiset(Above(s, v))[x] == if Exceeds(x, v) then multiset(s)[x] else 0
      {
        if x !in s[1..] {
          assert x !in Above(s[1..], v);
        }
      }
    }
  }

  /** Stipends 900, 1500 and 2000 filtered above 1000: the second and the
      third certificate, in that order. */
  lemma FilterExample(a: StudentReference, b: StudentReference, c: StudentReference)
    requires a.stipend == PyFloat(900.0) && b.stipend == PyFloat(1500.0) && c.stipend == PyFloat(2000.0)
    ensures Above([a, b, c], 1000.0) == [b, c]
  {
    assert [a, b, c][1..] == [b, c] && [b, c][1..] == [c] && [c][1..] == [];
    assert Above([c], 1000.0) == [c];
    assert Above([b, c], 1000.0) == [b] + [c];
  }

  class ReferenceCollection {
    /** `_data`: the certificates, in stored order. */
    var data: seq<StudentReference>
    /** `_index`: the iteration cursor, absent until `__iter__` first runs. */
    var index: Option<nat>

    /** The cursor never passes the end of the list. */
    ghost predicate Valid()
      reads this
    {
      index.Some? ==> index.value <= |data|
    }

    /** The values of the stored certificates, in order. */
    function Contents(): seq<Reference>
      reads this, data
    {
      Snapshots(data)
    }

    /** `__init__`: an empty list, no cursor yet. */
    constructor ()
      ensures Valid() && data == [] && index == None
    {
      data := [];
      index := None;
    }

    /** `__iter__`: resets the cursor and returns the collection itself. */
    method Iter() returns (it: ReferenceCollection)
      requires Valid()
      modifies this
      ensures Valid() && it == this && data == old(data) && index == Some(0)
    {
      index := Some(0);
      it := this;
    }

    /** `__next__`: the element under the cursor, moving the cursor on;
        StopIteration at the end; AttributeError before any `__iter__`. */
    method Next() returns (r: Result<StudentReference>)
      requires Valid()
      modifies this
      ensures Valid() && data == old(data)
      ensures old(index).None? ==> r == Err(AttributeError("_index")) && index == old(index)
      ensures old(index).Some? && old(index).value < |data| ==>
        r == Ok(data[old(index).value]) && index == Some(old(index).value + 1)
      ensures old(index).Some? && old(index).value == |data| ==>
        r == Err(StopIteration) && index == old(index)
    {
      if index.None? {
        return Err(AttributeError("_index"));
      }
      var i := index.value;
      if i < |data| {
        r := Ok(data[i]);
        index := Some(i + 1);
      } else {
        r := Err(StopIteration);
      }
    }

    /** A `for` loop over the collection: `__iter__`, then `__next__` until
        StopIteration. It receives every element, in stored order. */
    method Drain() returns (items: seq<StudentReference>)
      requires Valid()
      modifies this
      ensures Valid() && data == old(data) && index == Some(|data|)
      ensures items == data
    {
      var _ := Iter();
      items := [];
      while true
        invariant Valid() && data == old(data) && index.Some?
        invariant items == data[..index.value]
        decreases |data| - index.value
      {
        var r := Next();
        if r.Err? {
          break;
        }
        items := items + [r.value];
      }
    }

    /** `__getitem__(i)`: Python list indexing, negative positions counting
        from the end; IndexError outside the list. */
    function GetItem(i: int): (r: Result<StudentReference>)
      reads this
      ensures r.Ok? <==> -|data| <= i < |data|
      ensures r.Err? ==> r.error == IndexError
      ensures 0 <= i < |data| ==> r == Ok(data[i])
      ensures -|data| <= i < 0 ==> r == Ok(data[|data| + i])
    {
      if 0 <= i < |data| then Ok(data[i])
      else if -|data| <= i < 0 then Ok(data[|data| + i])
      else Err(IndexError)
    }

    /** A negative position names the same element as its positive mirror. */
    lemma GetItemNegative(i: int)
      requires 0 <= i < |data|
      ensures GetItem(i - |data|) == GetItem(i) == Ok(data[i])
    {
    }

    /** `add(item)`: TypeError, and nothing changes, unless the item is a
        StudentReference; otherwise it is appended (without validation). */
    method Add(item: object?) returns (o: Outcome)
      requires Valid()
      modifies this
      ensures Valid() && index == old(index)
      ensures o == if item is StudentReference then Pass else Fail(TypeError)
      ensures item is StudentReference ==> data == old(data) + [item as StudentReference]
      ensures item is StudentReference ==> Contents() == old(Contents()) + [(item as StudentReference).Snapshot()]
      ensures !(item is StudentReference) ==> data == old(data)
    {
      if !(item is StudentReference) {
        return Fail(TypeError);
      }
      var ref := item as StudentReference;
      data := data + [ref];
      o := Pass;
      assert Snapshots(data) == Snapshots(old(data)) + [ref.Snapshot()];
    }

    /** The body of the `try` in `from_csv`'s loop, up to `add`: look up the
        columns, convert the stipend with `float`, build the record and
        validate it; null where that raises KeyError or ValueError. */
    static method BuildRow(row: Row, parse: string -> Option<real>) returns (ref: StudentReference?)
      ensures ref == null <==> RowToReference(row, parse).None?
      ensures ref != null ==> fresh(ref) && ref.Snapshot() == RowToReference(row, parse).value
    {
      if NumberColumn !in row || DateColumn !in row || NameColumn !in row || StipendColumn !in row {
        // KeyError
        return null;
      }
      var stipend := parse(row[StipendColumn]);
      if stipend.None? {
        // ValueError from float()
        return null;
      }
      if DestinationColumn !in row {
        // KeyError
        return null;
      }
      ref := new StudentReference(map[
        "id" := PyStr(row[NumberColumn]),
        "date" := PyStr(row[DateColumn]),
        "full_name" := PyStr(row[NameColumn]),
        "stipend" := PyFloat(stipend.value),
        "destination" := PyStr(row[DestinationColumn])]);
      if ref.Snapshot().Validate().Fail? {
        // ValueError from validate()
        return null;
      }
    }

    /** One pass of the loop in `from_csv`: build and validate the row's
        certificate and `add` it; false, with nothing added, where that
        raises KeyError or ValueError. */
    method LoadRow(row: Row, parse: string -> Option<real>) returns (ok: bool)
      requires Valid()
      modifies this
      ensures Valid() && index == old(index)
      ensures ok <==> RowToReference(row, parse).Some?
      ensures !ok ==> data == old(data)
      ensures ok ==> Contents() == old(Contents()) + [RowToReference(row, parse).value]
    {
      var ref := BuildRow(row, parse);
      if ref == null {
        return false;
      }
      var _ := Add(ref);
      ok := true;
    }

    /** `from_csv`, given the file's data rows: a new collection holding one
        record per row, in row order, or null (Python's None) as soon as a
        row lacks a column, has a stipend `float` rejects, or fails
        `validate`. */
    static method FromCsv(rows: seq<Row>, parse: string -> Option<real>) returns (c: ReferenceCollection?)
      ensures c == null <==> LoadRows(rows, parse).None?
      ensures c != null ==> fresh(c) && c.Valid() && c.index == None
      ensures c != null ==> c.Contents() == LoadRows(rows, parse).value
    {
      var coll := new ReferenceCollection();
      var i := 0;
      ghost var loaded: seq<Reference> := [];
      while i < |rows|
        invariant 0 <= i <= |rows|
        invariant fresh(coll) && coll.Valid() && coll.index == None
        invariant coll.Contents() == loaded
        invariant LoadRows(rows[..i], parse) == Some(loaded)
      {
        var ok := coll.LoadRow(rows[i], parse);
        LoadRowsStep(rows, i, parse);
        if !ok {
          return null;
        }
        loaded := loaded + [RowToReference(rows[i], parse).value];
        i := i + 1;
      }
      assert rows[..i] == rows;
      c := coll;
    }

    /** `save_to_csv`: None when the collection is empty (nothing is
        written); otherwise the header line followed by one `to_dict` line
        per certificate, in stored order. */
    function SaveToCsv(format: real -> string): (out: Option<seq<seq<string>>>)
      reads this, data
      ensures out.None? <==> data == []
      ensures out.Some? ==> |out.value| == |data| + 1 && out.value[0] == Header
      ensures out.Some? ==> forall i :: 0 <= i < |data| ==>
        out.value[i + 1] == WriteRow(data[i].Snapshot().ToDict(), format)
    {
      if data == [] then None else Some(SavedLines(Contents(), format))
    }

    /** Saving a collection that came from a file and loading the saved file
        gives back the same certificates in the same order. */
    lemma SaveThenLoad(format: real -> string, parse: string -> Option<real>)
      requires data != []
      requires forall r :: r in Contents() ==> Storable(r) && parse(format(r.stipend.x)) == Some(r.stipend.x)
      ensures LoadRows(ReadRows(SaveToCsv(format).value), parse) == Some(Contents())
    {
      SaveLoadRoundTrip(Contents(), format, parse);
    }

    /** `filter_by_stipend(v)`: the certificates whose stipend is above v,
        strictly, in stored order; the collection is only read. Every
        stipend must be a float (Python raises TypeError otherwise). */
    function FilterByStipend(v: real): (r: seq<StudentReference>)
      reads this, data
      requires forall x :: x in data ==> x.stipend.PyFloat?
      ensures forall x :: x in r ==> x in data && x.stipend.x > v
      ensures forall x :: x in data ==> multiset(r)[x] == if x.stipend.x > v then multiset(data)[x] else 0
    {
      AboveExactly(data, v);
      Above(data, v)
    }

    /** `sort_by(field)`: for 'name' or 'stipend', a stable in-place sort of
        the list by that attribute; any other field leaves it unchanged. */
    method SortBy(field: string)
      requires Valid()
      requires FieldFor(field).Some? ==> Comparable(data, FieldFor(field).value)
      modifies this
      ensures Valid() && index == old(index)
      ensures FieldFor(field).None? ==> data == old(data)
      ensures FieldFor(field).Some? ==> data == SortedBy(old(data), FieldFor(field).value)
      ensures FieldFor(field).Some? ==> StablySorted(old(data), data, FieldFor(field).value)
    {
      var f := FieldFor(field);
      if f.Some? {
        SortedBySpec(data, f.value);
        data := SortedBy(data, f.value);
      }
    }
  }
}
