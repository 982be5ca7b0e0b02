# Student certificate collection, modelled in Dafny

LR4.py keeps student financial-aid certificates ("references") in memory
and persists them as a semicolon-separated CSV file. A certificate
(`StudentReference`) has exactly five attributes: number, date, full name,
stipend and destination. It has a truthiness-based `validate` and a fixed
mapping to CSV columns (`to_dict`). A collection (`ReferenceCollection`)
holds an ordered list of certificates. It supports appending with a type
check, its own iteration cursor, Python list indexing, loading from CSV
(all or nothing), saving to CSV, filtering by stipend and a stable sort by
name or stipend.

Modules, one per concept:

- `PyValues` (python_values.dfy): the Python values an attribute can hold
  (None, str, float), Python's truth test and the exceptions the core raises.
- `Order` (order.dfy): Python's `<=` on strings (lexicographic by code
  point; Dafny's `<` on sequences means "proper prefix") and on sort keys,
  proved to be a total order.
- `StableSort` (stable_sort.dfy): `list.sort(key=...)` on key/element
  pairs, with a reference insertion sort. It is proved to be sorted, a
  permutation, stable and idempotent. It is also proved to be the only
  sorted arrangement that keeps equal keys in order, so it agrees with
  CPython's stable sort.
- `References` (references.dfy): the `Reference` value and its rules, and
  the `StudentReference` class whose attributes `__setattr__` mutates
  under its closed-field guard.
- `Csv` (csv.dfy): the record one CSV row yields, the all-or-nothing load
  of a file's rows, the lines a save emits, and the save/load round trip.
- `Collection` (collection.dfy): the `ReferenceCollection` class (`_data`
  and `_index` as fields) with `add`, `__iter__`/`__next__`,
  `__getitem__`, `from_csv`, `save_to_csv`, `filter_by_stipend` and
  `sort_by`.

The collection stores certificate objects, not copies, as Python's list
does. Its `Contents()` is the list of their current values.

`float(text)` and `str(x)` on stipends are passed in as the functions
`parse` and `format`. The save/load round trip is proved for records a
load could have produced, provided `parse` reads back exactly what `format`
wrote for each stored stipend. Python's `float(str(x))` does this for every
finite float.

Where the design description and the code differ, the model follows the
code:

- `add` does not validate. A collection can hold an invalid certificate;
  only `from_csv` and the interactive path call `validate`.
- A listed attribute can be reassigned after construction.
- `__getitem__` accepts negative positions, as any Python list does.
- `sort_by` lives on a subclass but is called on a plain collection
  (LR4.py:160, 167), so it is a method of the one collection class here.

## Model

| member | source | states |
|---|---|---|
| `Order.LexLeMeansSpec` | LR4.py:129 | the order used to sort full names is Python's string order: a proper prefix comes first, otherwise the first differing code point decides (both directions) |
| `Order.LexLeReflexive` | LR4.py:129 | every name is `<=` itself |
| `Order.LexLeTotal` | LR4.py:129 | any two names are comparable |
| `Order.LexLeAntisymmetric` | LR4.py:129 | two names each `<=` the other are equal |
| `Order.LexLeTransitive` | LR4.py:129 | the name order is transitive |
| `Order.KeyLeReflexive` | LR4.py:127-131 | the sort-key order is reflexive |
| `Order.KeyLeTotal` | LR4.py:127-131 | any two sort keys are comparable |
| `Order.KeyLeAntisymmetric` | LR4.py:127-131 | keys each `<=` the other are equal, so "equal key" means the same value |
| `Order.KeyLeTransitive` | LR4.py:127-131 | the sort-key order is transitive |
| `StableSort.Items` | LR4.py:129 | undecorating keeps the length and takes each element from its pair, position by position |
| `StableSort.InsertPermutes` | LR4.py:129 | inserting one pair adds exactly that pair to the multiset |
| `StableSort.InsertPermutesItems` | LR4.py:129 | inserting one pair adds exactly its element to the undecorated multiset |
| `StableSort.SortPermutes` | LR4.py:129 | sorting yields a permutation of the decorated list |
| `StableSort.SortPermutesItems` | LR4.py:129 | sorting yields a permutation of the elements |
| `StableSort.SortedCons` | LR4.py:129 | a key no greater than every key of a sorted list can be put in front of it |
| `StableSort.InsertSorted` | LR4.py:129 | inserting into a sorted list keeps it sorted |
| `StableSort.SortSorted` | LR4.py:129 | the sorted list has non-decreasing keys |
| `StableSort.InsertWithKey` | LR4.py:129 | an inserted pair lands ahead of every pair with the same key |
| `StableSort.SortStable` | LR4.py:129 | for every key, the pairs carrying it keep their relative order |
| `StableSort.SortOfSorted` | LR4.py:129 | sorting an already sorted list changes nothing |
| `StableSort.SortIdempotent` | LR4.py:129 | sorting twice equals sorting once |
| `StableSort.WithKeyMember` | LR4.py:129 | an element selected for a key is in the list and carries that key |
| `StableSort.WithKeyOfFirst` | LR4.py:129 | the first element heads the selection for its own key |
| `StableSort.SortedTail` | LR4.py:129 | the tail of a sorted list is sorted |
| `StableSort.SortedSameHead` | LR4.py:129 | two sorted lists that agree key by key start with the same element |
| `StableSort.WithKeyTails` | LR4.py:129 | dropping a common first element keeps the key-by-key agreement |
| `StableSort.SortedUnique` | LR4.py:129 | two sorted lists that agree key by key on order are equal |
| `StableSort.SortCharacterized` | LR4.py:129 | any sorted arrangement that keeps equal keys in their original order, as CPython's stable sort returns, is this sort's result |
| `References.Reference.With` | LR4.py:22-25 | assigning a listed attribute sets that attribute and leaves the other four unchanged |
| `References.Reference.Validate` | LR4.py:33-35 | `validate` passes exactly when all five attributes are truthy, and raises ValueError otherwise |
| `References.Reference.ToDict` | LR4.py:37-45 | `to_dict` has five entries; entry i maps header column i to attribute i |
| `References.FromKwargs` | LR4.py:16-20 | the constructor sets each of the five attributes to its keyword's value, or None when the keyword is omitted |
| `References.FromKwargsIgnoresUnknown` | LR4.py:16-20 | keywords outside `_fields` do not affect the record |
| `References.StipendBoundary` | LR4.py:33-35 | with the text attributes filled in, a 0.0 stipend fails validation, any other float passes (a negative one too), and a missing one fails |
| `References.ToDictColumns` | LR4.py:37-45 | the keys of `to_dict`, in order, are the header `save_to_csv` writes |
| `References.Snapshots` | LR4.py:50 | the values of a list of certificates, position by position |
| `References.StudentReference.constructor` | LR4.py:16-20 | a new certificate's value is the one the keywords determine |
| `References.StudentReference.SetAttr` | LR4.py:22-25 | a name outside `_fields` raises AttributeError and changes nothing; a listed name changes that attribute only |
| `Csv.RowToReference` | LR4.py:83-94 | a row yields a record exactly when all five columns exist, `float` accepts the stipend text, the four text cells are non-empty and the stipend is not 0.0 (so `validate` passes); that record holds the column texts and the parsed stipend |
| `Csv.LoadRowsFails` | LR4.py:81-95 | loading fails, with no partial collection, exactly when some row fails |
| `Csv.LoadRowsLoadsEach` | LR4.py:81-95 | a successful load holds one record per row, in row order |
| `Csv.LoadRowsSnoc` | LR4.py:81-91 | loading one more row extends the result by that row's record, or fails |
| `Csv.WriteRow` | LR4.py:107-114 | a written line has one cell per header column |
| `Csv.SavedLines` | LR4.py:107-114 | the saved lines are the header, then one `to_dict` line per record, in stored order |
| `Csv.ReadRows` | LR4.py:80-81 | reading gives one row dictionary per line after the header |
| `Csv.ZipAt` | LR4.py:80-81 | a row dictionary maps each header column to the cell beneath it, unless the name repeats later, where the later cell wins |
| `Csv.ZipOmits` | LR4.py:80-81 | a name that is not a header column has no entry in a row dictionary |
| `Csv.LookupAt` | LR4.py:107-114 | the writer finds each column's value in `to_dict` |
| `Csv.SavedRowReadsBack` | LR4.py:84-88 | reading back a saved line gives, under column i, the cell of attribute i |
| `Csv.RowRoundTrip` | LR4.py:83-90 | a loadable record written as a line and read back is rebuilt unchanged, given that `float` reads what `str` wrote |
| `Csv.SaveLoadRoundTrip` | LR4.py:77-114 | saving loadable records and loading the saved lines gives back the same records in the same order, when `float` reads back each stipend `str` wrote |
| `Collection.Decorate` | LR4.py:129-131 | each element is paired with its own sort key, position by position |
| `Collection.ItemsOfDecorate` | LR4.py:129-131 | undecorating a decoration gives back the list |
| `Collection.SortedPairsKeyed` | LR4.py:129-131 | after sorting, every pair still carries its element's key |
| `Collection.SortedByPermutes` | LR4.py:127-131 | `sort_by` only rearranges the list |
| `Collection.SortedByOrdered` | LR4.py:127-131 | after `sort_by`, full names (or stipends) never decrease along the list |
| `Collection.KeyedAsItems` | LR4.py:129-131 | selecting by key commutes with undecorating |
| `Collection.SortedByStable` | LR4.py:127-131 | certificates with equal keys keep their relative order |
| `Collection.SortedBySpec` | LR4.py:127-131 | `sort_by`'s result is a stable sort of its input: the same certificates, keys never decreasing, equal keys in their old order |
| `Collection.SortedByIdempotent` | LR4.py:127-131 | sorting twice by the same field equals sorting once |
| `Collection.AboveAppend` | LR4.py:119-123 | filtering a concatenation concatenates the filtered parts, so kept items stay in their original order |
| `Collection.AboveExactly` | LR4.py:119-123 | exactly the items with stipend strictly above the threshold are kept, each as often as it occurs |
| `Collection.FilterExample` | LR4.py:119-123 | stipends 900, 1500, 2000 filtered above 1000 give the second and third certificate, in that order |
| `Collection.ReferenceCollection.constructor` | LR4.py:49-50 | a new collection is empty and has no cursor |
| `Collection.ReferenceCollection.Iter` | LR4.py:52-54 | `__iter__` resets the cursor to 0, returns the collection itself and leaves the list alone |
| `Collection.ReferenceCollection.Next` | LR4.py:56-61 | `__next__` returns the element under the cursor and advances it; at the end it raises StopIteration; before any `__iter__` it raises AttributeError; the cursor never passes the end |
| `Collection.ReferenceCollection.Drain` | LR4.py:52-61 | a `for` loop over the collection receives every element, in stored order |
| `Collection.ReferenceCollection.GetItem` | LR4.py:63-64 | `__getitem__` returns the element at a position, counting negative positions from the end, and raises IndexError outside the list |
| `Collection.ReferenceCollection.GetItemNegative` | LR4.py:63-64 | position i - len names the same element as position i |
| `Collection.ReferenceCollection.Add` | LR4.py:69-72 | a non-certificate raises TypeError and leaves the list unchanged; a certificate is appended at the end, unvalidated, with earlier elements untouched |
| `Collection.ReferenceCollection.BuildRow` | LR4.py:83-94 | one row gives a fresh certificate exactly when it would load, with the loaded value |
| `Collection.ReferenceCollection.LoadRow` | LR4.py:82-95 | one pass of the loop adds the row's certificate exactly when the row would load, and otherwise leaves the list unchanged |
| `Collection.LoadRowsStep` | LR4.py:81-95 | a failing row makes the whole load fail; a good row extends the records loaded so far by its own record |
| `Collection.ReferenceCollection.FromCsv` | LR4.py:74-98 | `from_csv` returns None exactly when some row fails; otherwise a new collection with one certificate per row, in row order |
| `Collection.ReferenceCollection.SaveToCsv` | LR4.py:100-114 | nothing is written for an empty collection; otherwise the header, then one `to_dict` line per certificate, in stored order |
| `Collection.ReferenceCollection.SaveThenLoad` | LR4.py:77-114 | loading what a loaded collection saved gives back the same certificates in the same order, when `float` reads back each stipend `str` wrote |
| `Collection.ReferenceCollection.FilterByStipend` | LR4.py:119-123 | `filter_by_stipend` yields exactly the certificates with stipend strictly above the threshold, with their multiplicities, and only reads the collection |
| `Collection.ReferenceCollection.SortBy` | LR4.py:127-131 | for 'name' or 'stipend' the list becomes a stable sorted permutation of itself; any other field leaves it unchanged |

## Left out

- The interactive menu, `input` and `print` (LR4.py:133-203) are console glue. So are the messages `from_csv` prints for a rejected row (LR4.py:93) and a missing file (LR4.py:97), and the notice `save_to_csv` prints for an empty collection instead of writing (LR4.py:103). The model keeps the outcomes (None, nothing written) but not the text.
- Counting files in a directory with `os.listdir` (LR4.py:150) is an OS call.
- Opening files, UTF-8 with byte-order mark, CSV quoting and line splitting are file I/O. So are the caught `FileNotFoundError` and the generic exception caught on save (LR4.py:79-80, 96-98, 106-117). A file is given as its row dictionaries or emitted lines instead.
- Text-to-float conversion and float formatting (LR4.py:87, 172, 184) are the parameters `parse` and `format`. NaN and infinities are not values here.
- The `__repr__` strings (LR4.py:27-31, 66-67) are display only.
- The abstract base class `BaseReference` (LR4.py:5-10) has one implementation, so it is not modelled.
- The `_initialized` flag (LR4.py:17, 20, 23) is true whenever outside code can call `__setattr__`, so it is not a field.
- Attribute values are limited to None, str and float, which is all the program ever stores. Python ints, bools and other objects are not modelled.
- Collection.ReferenceCollection.FilterByStipend: requires every stipend to be a float. Python raises TypeError when it meets another stipend, after yielding the earlier matches. The generator's laziness and single pass are not modelled; the result is a finished list.
- Collection.ReferenceCollection.SortBy: requires the keys to be all str or all float. Python raises TypeError on mixed or None keys and may leave the list partly reordered; that path is not modelled.
- Collection.ReferenceCollection.GetItem: slices and non-integer indices are not modelled.
- Csv.ReadRows: models `csv.DictReader` only for lines as long as the header. Short lines (missing cells become None), extra cells and skipped blank lines are not modelled. A None cell would make `float` raise an uncaught TypeError in `from_csv`.
