/** A student certificate ("reference"): `StudentReference` in LR4.py. The
    Python object is the class below; its value at any moment is a
    `Reference`, on which the pure rules (validation, the CSV mapping) are
    stated. */
module References {
  import opened PyValues

  /** `StudentReference._fields`: the only attribute names a record carries. */
  const Fields: seq<string> := ["id", "date", "full_name", "stipend", "destination"]

  /** The CSV column names, in the order `to_dict` lists them and
      `save_to_csv` writes them. */
  const NumberColumn: string := "№"
  const DateColumn: string := "дата"
  const NameColumn: string := "ФИО студента"
  const StipendColumn: string := "размер стипендии"
  const DestinationColumn: string := "куда выдается справка"
  const Header: seq<string> := [NumberColumn, DateColumn, NameColumn, StipendColumn, DestinationColumn]

  /** The five attributes of a certificate, each holding whatever Python
      value it was given (None when the keyword was omitted). */
  datatype Reference = Reference(id: Value, date: Value, fullName: Value, stipend: Value, destination: Value)
  {
    /** The attribute called `name`. */
    function Get(name: string): Value
      requires name in Fields
    {
      if name == "id" then id
      else if name == "date" then date
      else if name == "full_name" then fullName
      else if name == "stipend" then stipend
      else destination
    }

    /** This record with attribute `name` set to `v`: what a permitted
        assignment `ref.name = v` leaves behind. */
    function With(name: string, v: Value): (r: Reference)
      requires name in Fields
      ensures r.Get(name) == v
      ensures forall f :: f in Fields && f != name ==> r.Get(f) == Get(f)
    {
      if name == "id" then this.(id := v)
      else if name == "date" then this.(date := v)
      else if name == "full_name" then this.(fullName := v)
      else if name == "stipend" then this.(stipend := v)
      else this.(destination := v)
    }

    /** `validate`: raises ValueError unless all five attributes are truthy. */
    function Validate(): (o: Outcome)
      ensures o == Pass || o == Fail(ValueError)
      ensures o == Pass <==> forall f :: f in Fields ==> Truthy(Get(f))
    {
      if Truthy(id) && Truthy(date) && Truthy(fullName) && Truthy(stipend) && Truthy(destination)
      then Pass
      else
        assert forall i :: 0 <= i < |Fields| ==> Fields[i] in Fields;
        assert Get(Fields[0]) == id && Get(Fields[1]) == date && Get(Fields[2]) == fullName;
        assert Get(Fields[3]) == stipend && Get(Fields[4]) == destination;
        Fail(ValueError)
    }

    /** `to_dict`: the column/value pairs, in the order they are inserted. */
    function ToDict(): (d: seq<(string, Value)>)
      ensures |d| == |Header| == |Fields|
      ensures forall i :: 0 <= i < |d| ==> d[i] == (Header[i], Get(Fields[i]))
    {
      [(NumberColumn, id), (DateColumn, date), (NameColumn, fullName),
       (StipendColumn, stipend), (DestinationColumn, destination)]
    }
  }

  /** `kwargs.get(key, None)`. */
  function KwargOrNone(kwargs: map<string, Value>, key: string): Value
  {
    if key in kwargs then kwargs[key] else PyNone
  }

  /** The record `StudentReference(**kwargs)` builds: each of the five
      attributes takes its keyword's value, or None when it was omitted;
      any other keyword is ignored. */
  function FromKwargs(kwargs: map<string, Value>): (r: Reference)
    ensures forall f :: f in Fields ==> r.Get(f) == (if f in kwargs then kwargs[f] else PyNone)
  {
    Reference(KwargOrNone(kwargs, "id"), KwargOrNone(kwargs, "date"), KwargOrNone(kwargs, "full_name"),
              KwargOrNone(kwargs, "stipend"), KwargOrNone(kwargs, "destination"))
  }

  /** Keywords outside `_fields` make no difference to the record built. */
  lemma FromKwargsIgnoresUnknown(kwargs: map<string, Value>)
    ensures FromKwargs(kwargs) == FromKwargs(map k | k in kwargs && k in Fields :: kwargs[k])
  {
  }

  /** The boundary of the truthiness rule on a record whose text attributes
      are filled in: a 0.0 stipend fails validation, a negative one passes,
      a missing one fails. */
  lemma StipendBoundary(r: Reference, x: real)
    requires Truthy(r.id) && Truthy(r.date) && Truthy(r.fullName) && Truthy(r.destination)
    ensures r.(stipend := PyFloat(x)).Validate() == Pass <==> x != 0.0
    ensures r.(stipend := PyNone).Validate() == Fail(ValueError)
  {
  }

  /** The keys of `to_dict`, in order, are exactly the header `save_to_csv`
      writes, and column i holds attribute i. */
  lemma ToDictColumns(r: Reference)
    ensures seq(|r.ToDict()|, i requires 0 <= i < |r.ToDict()| => r.ToDict()[i].0) == Header
  {
  }

  /** The Python object. After `__init__` returns, `_initialized` is true
      for good (assigning it is itself refused), so the guard in
      `__setattr__` reduces to membership in `_fields`. */
  class StudentReference {
    var id: Value
    var date: Value
    var fullName: Value
    var stipend: Value
    var destination: Value

    /** The record's current value. */
    function Snapshot(): Reference
      reads this
    {
      Reference(id, date, fullName, stipend, destination)
    }

    /** `__init__(**kwargs)`: sets exactly the five attributes, None for an
        omitted keyword. */
    constructor (kwargs: map<string, Value>)
      ensures Snapshot() == FromKwargs(kwargs)
    {
      id := KwargOrNone(kwargs, "id");
      date := KwargOrNone(kwargs, "date");
      fullName := KwargOrNone(kwargs, "full_name");
      stipend := KwargOrNone(kwargs, "stipend");
      destination := KwargOrNone(kwargs, "destination");
    }

    /** `__setattr__(name, v)`: AttributeError, and nothing changes, for a
        name outside `_fields`; otherwise that one attribute becomes `v`. */
    method SetAttr(name: string, v: Value) returns (o: Outcome)
      modifies this
      ensures o == if name in Fields then Pass else Fail(AttributeError(name))
      ensures name !in Fields ==> unchanged(this)
      ensures name in Fields ==> Snapshot().Get(name) == v
      ensures name in Fields ==>
        forall f :: f in Fields && f != name ==> Snapshot().Get(f) == old(Snapshot()).Get(f)
    {
      if name !in Fields {
        return Fail(AttributeError(name));
      }
      if name == "id" {
        id := v;
      } else if name == "date" {
        date := v;
      } else if name == "full_name" {
        fullName := v;
      } else if name == "stipend" {
        stipend := v;
      } else {
        destination := v;
      }
      o := Pass;
    }
  }

  /** The values of a list of records, position by position. */
  function Snapshots(s: seq<StudentReference>): (r: seq<Reference>)
    reads s
    ensures |r| == |s|
    ensures forall i :: 0 <= i < |s| ==> r[i] == s[i].Snapshot()
  {
    if s == [] then [] else [s[0].Snapshot()] + Snapshots(s[1..])
  }
}
