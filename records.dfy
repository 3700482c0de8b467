/** Third phase of `parseCSV` (src/pages/Upload.jsx:49-56): every row after
    the first becomes an object whose property names come from the first
    row. A JavaScript object is modelled as the list of its own properties
    in the order they were created. */
module CsvRecords {
  import opened CsvText

  datatype Option<T> = None | Some(value: T)

  /** One own property of a record object. */
  datatype Entry = Entry(key: string, value: string)

  type Record = seq<Entry>

  /** The value stored under `key`, if the record has that property. */
  function Lookup(rec: Record, key: string): Option<string> {
    if rec == [] then None
    else if rec[0].key == key then Some(rec[0].value)
    else Lookup(rec[1..], key)
  }

  predicate DistinctKeys(rec: Record) {
    forall a, b :: 0 <= a < b < |rec| ==> rec[a].key != rec[b].key
  }

  /** The one name under which assigning a string to a fresh `{}` creates no
      property: it reaches the `__proto__` setter of `Object.prototype`,
      which ignores anything but an object or null. */
  const ProtoKey: string := "__proto__"

  /** Assignment to an ordinary own property: an existing property keeps its
      place and takes the new value, a new one is added last. */
  function Assign(rec: Record, key: string, value: string): Record {
    if rec == [] then [Entry(key, value)]
    else if rec[0].key == key then [Entry(key, value)] + rec[1..]
    else [rec[0]] + Assign(rec[1..], key, value)
  }

  /** `obj[key] = value`, with `value` a string. */
  function Put(rec: Record, key: string, value: string): Record {
    if key == ProtoKey then rec else Assign(rec, key, value)
  }

  /** After an assignment the key reads back the new value and every other
      key reads back what it read before. */
  lemma {:induction false} AssignLookup(rec: Record, key: string, value: string, k: string)
    ensures Lookup(Assign(rec, key, value), k) == if k == key then Some(value) else Lookup(rec, k)
  {
    if rec != [] && rec[0].key != key {
      AssignLookup(rec[1..], key, value, k);
      assert Assign(rec, key, value)[1..] == Assign(rec[1..], key, value);
    }
  }

  lemma {:induction false} LookupNoneIffAbsent(rec: Record, k: string)
    ensures Lookup(rec, k) == None <==> forall a :: 0 <= a < |rec| ==> rec[a].key != k
  {
    if rec != [] {
      LookupNoneIffAbsent(rec[1..], k);
      assert forall a :: 1 <= a < |rec| ==> rec[a] == rec[1..][a - 1];
    }
  }

  /** An assignment to a key the record lacks appends; to a key it has, it
      replaces in place. Keys stay distinct either way. */
  lemma {:induction false} AssignShape(rec: Record, key: string, value: string)
    requires DistinctKeys(rec)
    ensures DistinctKeys(Assign(rec, key, value))
    ensures Lookup(rec, key) == None ==> Assign(rec, key, value) == rec + [Entry(key, value)]
    ensures Lookup(rec, key) != None ==> |Assign(rec, key, value)| == |rec|
  {
    if rec != [] {
      var tail := rec[1..];
      assert DistinctKeys(tail) by {
        forall a, b | 0 <= a < b < |tail| ensures tail[a].key != tail[b].key {
          assert tail[a] == rec[a + 1] && tail[b] == rec[b + 1];
        }
      }
      if rec[0].key != key {
        AssignShape(tail, key, value);
        var r := Assign(rec, key, value);
        assert r == [rec[0]] + Assign(tail, key, value);
        forall b | 0 < b < |r| ensures r[b].key != rec[0].key {
          AssignLookup(tail, key, value, rec[0].key);
          LookupNoneIffAbsent(tail, rec[0].key);
          LookupNoneIffAbsent(Assign(tail, key, value), rec[0].key);
          assert r[b] == Assign(tail, key, value)[b - 1];
        }
        if Lookup(rec, key) == None {
          assert [rec[0]] + (tail + [Entry(key, value)]) == rec + [Entry(key, value)];
        }
      } else {
        var r := Assign(rec, key, value);
        forall a, b | 0 <= a < b < |r| ensures r[a].key != r[b].key {
          assert r[b] == rec[b];
          if a > 0 { assert r[a] == rec[a]; }
        }
      }
    }
  }

  /** The property name for header index `i`: the header itself, or
      `col_<i>` when the header is empty. */
  function KeyFor(headers: seq<string>, i: nat): string
    requires i < |headers|
  {
    if headers[i] != "" then headers[i] else "col_" + Decimal(i)
  }

  /** The property name of every header, in order. */
  function Keys(headers: seq<string>): seq<string> {
    seq(|headers|, i requires 0 <= i < |headers| => KeyFor(headers, i))
  }

  /** The value for header index `i`: the cell, or the empty string when the
      row is too short. */
  function CellOr(row: seq<string>, i: nat): string {
    if i < |row| then row[i] else ""
  }

  /** The object after the first `n` names have been assigned. */
  function RecordUpTo(keys: seq<string>, row: seq<string>, n: nat): Record
    requires n <= |keys|
  {
    if n == 0 then []
    else Put(RecordUpTo(keys, row, n - 1), keys[n - 1], CellOr(row, n - 1))
  }

  /** The record `parseCSV` makes of `row` under `headers`. */
  function RecordOf(headers: seq<string>, row: seq<string>): Record {
    RecordUpTo(Keys(headers), row, |headers|)
  }

  /** The loop that fills `obj` for one row. */
  method BuildRecord(headers: seq<string>, row: seq<string>) returns (obj: Record)
    ensures obj == RecordOf(headers, row)
  {
    obj := [];
    for i := 0 to |headers|
      invariant obj == RecordUpTo(Keys(headers), row, i)
    {
      var key := if headers[i] != "" then headers[i] else "col_" + Decimal(i);
      var value := if i < |row| then row[i] else "";
      assert key == Keys(headers)[i];
      obj := Put(obj, key, value);
    }
  }

  /** The property names of a record are distinct, and there are no more of
      them than headers. */
  lemma {:induction false} RecordUpToShape(keys: seq<string>, row: seq<string>, n: nat)
    requires n <= |keys|
    ensures DistinctKeys(RecordUpTo(keys, row, n))
    ensures |RecordUpTo(keys, row, n)| <= n
  {
    if n > 0 {
      RecordUpToShape(keys, row, n - 1);
      var prev, key := RecordUpTo(keys, row, n - 1), keys[n - 1];
      if key != ProtoKey {
        AssignShape(prev, key, CellOr(row, n - 1));
        if Lookup(prev, key) == None {
          assert |Assign(prev, key, CellOr(row, n - 1))| == |prev| + 1;
        }
      }
    }
  }

  lemma RecordShape(headers: seq<string>, row: seq<string>)
    ensures DistinctKeys(RecordOf(headers, row))
    ensures |RecordOf(headers, row)| <= |headers|
  {
    RecordUpToShape(Keys(headers), row, |headers|);
  }

  /** Reading a name from the object after `n` assignments: the cell of the
      last assignment to it, unless it is `__proto__` or was never assigned. */
  lemma {:induction false} RecordUpToLookup(keys: seq<string>, row: seq<string>, n: nat, k: string)
    requires n <= |keys|
    ensures Lookup(RecordUpTo(keys, row, n), k) ==
      if k != ProtoKey && LastIndexOf(keys, n, k) < n then Some(CellOr(row, LastIndexOf(keys, n, k)))
      else None
  {
    if n > 0 {
      RecordUpToLookup(keys, row, n - 1, k);
      PutLookup(RecordUpTo(keys, row, n - 1), keys[n - 1], CellOr(row, n - 1), k);
    }
  }

  /** `Put` reads back like `Assign`, except that `__proto__` changes nothing. */
  lemma PutLookup(rec: Record, key: string, value: string, k: string)
    ensures Lookup(Put(rec, key, value), k) ==
      if key == ProtoKey || k != key then Lookup(rec, k) else Some(value)
  {
    if key != ProtoKey {
      AssignLookup(rec, key, value, k);
    }
  }

  /** The greatest index below `n` holding `k`, or `n` when there is none. */
  function LastIndexOf(keys: seq<string>, n: nat, k: string): (j: nat)
    requires n <= |keys|
    ensures j <= n
    ensures j < n ==> keys[j] == k
    ensures j < n ==> forall i :: j < i < n ==> keys[i] != k
    ensures j == n ==> forall i :: 0 <= i < n ==> keys[i] != k
  {
    if n == 0 then 0
    else if keys[n - 1] == k then n - 1
    else
      var j := LastIndexOf(keys, n - 1, k);
      if j == n - 1 then n else j
  }

  /** The object has a property for every header name except `__proto__`,
      and for nothing else; under duplicate names the later cell wins. */
  lemma RecordLookup(headers: seq<string>, row: seq<string>, i: nat)
    requires i < |headers| && KeyFor(headers, i) != ProtoKey
    requires forall j :: i < j < |headers| ==> KeyFor(headers, j) != KeyFor(headers, i)
    ensures Lookup(RecordOf(headers, row), KeyFor(headers, i)) == Some(CellOr(row, i))
  {
    var keys := Keys(headers);
    RecordUpToLookup(keys, row, |keys|, keys[i]);
    LastIndexIsLast(keys, |keys|, i);
  }

  lemma {:induction false} LastIndexIsLast(keys: seq<string>, n: nat, i: nat)
    requires i < n <= |keys|
    requires forall j :: i < j < n ==> keys[j] != keys[i]
    ensures LastIndexOf(keys, n, keys[i]) == i
  {
    if n - 1 > i {
      LastIndexIsLast(keys, n - 1, i);
    }
  }

  /** A name that no header yields, or `__proto__`, is not a property. */
  lemma RecordLacks(headers: seq<string>, row: seq<string>, k: string)
    requires k == ProtoKey || forall i :: 0 <= i < |headers| ==> KeyFor(headers, i) != k
    ensures Lookup(RecordOf(headers, row), k) == None
  {
    var keys := Keys(headers);
    RecordUpToLookup(keys, row, |keys|, k);
    if k != ProtoKey {
      assert forall i :: 0 <= i < |keys| ==> keys[i] != k;
    }
  }

  /** Two empty headers get different names. */
  lemma EmptyHeaderKeys(headers: seq<string>, i: nat, j: nat)
    requires i < |headers| && j < |headers| && i != j
    requires headers[i] == "" && headers[j] == ""
    ensures KeyFor(headers, i) != KeyFor(headers, j)
    ensures KeyFor(headers, i) != ProtoKey
  {
    var prefix := "col_";
    if KeyFor(headers, i) == KeyFor(headers, j) {
      assert Decimal(i) == (prefix + Decimal(i))[4..] == (prefix + Decimal(j))[4..] == Decimal(j);
      DecimalInjective(i, j);
    }
    assert KeyFor(headers, i)[0] == 'c';
  }

  /** No two headers yield the same property name. */
  predicate KeysDistinct(headers: seq<string>) {
    forall i, j :: 0 <= i < j < |headers| ==> KeyFor(headers, i) != KeyFor(headers, j)
  }

  /** With distinct names and no `__proto__`, the object after `n`
      assignments has exactly the first `n` names, in order, each with its
      cell. */
  lemma {:induction false} RecordUpToExact(keys: seq<string>, row: seq<string>, n: nat)
    requires n <= |keys|
    requires forall i, j :: 0 <= i < j < |keys| ==> keys[i] != keys[j]
    requires forall i :: 0 <= i < |keys| ==> keys[i] != ProtoKey
    ensures |RecordUpTo(keys, row, n)| == n
    ensures forall i :: 0 <= i < n ==> RecordUpTo(keys, row, n)[i] == Entry(keys[i], CellOr(row, i))
  {
    if n > 0 {
      RecordUpToExact(keys, row, n - 1);
      var prev, key, v := RecordUpTo(keys, row, n - 1), keys[n - 1], CellOr(row, n - 1);
      AssignFresh(prev, key, v);
    }
  }

  /** Assigning a key the record lacks appends it. */
  lemma {:induction false} AssignFresh(rec: Record, key: string, value: string)
    requires forall a :: 0 <= a < |rec| ==> rec[a].key != key
    ensures Assign(rec, key, value) == rec + [Entry(key, value)]
  {
    if rec != [] {
      assert forall a :: 0 <= a < |rec| - 1 ==> rec[1..][a] == rec[a + 1];
      AssignFresh(rec[1..], key, value);
      assert [rec[0]] + (rec[1..] + [Entry(key, value)]) == rec + [Entry(key, value)];
    }
  }

  /** With distinct names and no `__proto__`, the record has exactly one
      property per header, in header order, holding that header's cell. */
  lemma RecordExact(headers: seq<string>, row: seq<string>)
    requires KeysDistinct(headers)
    requires forall i :: 0 <= i < |headers| ==> KeyFor(headers, i) != ProtoKey
    ensures RecordOf(headers, row) == seq(|headers|, i requires 0 <= i < |headers| => Entry(KeyFor(headers, i), CellOr(row, i)))
  {
    var keys := Keys(headers);
    RecordUpToExact(keys, row, |keys|);
  }

  lemma {:induction false} RecordUpToCells(keys: seq<string>, row1: seq<string>, row2: seq<string>, n: nat)
    requires n <= |keys|
    requires forall i :: 0 <= i < n ==> CellOr(row1, i) == CellOr(row2, i)
    ensures RecordUpTo(keys, row1, n) == RecordUpTo(keys, row2, n)
  {
    if n > 0 {
      RecordUpToCells(keys, row1, row2, n - 1);
    }
  }

  /** Cells beyond the header count are dropped. */
  lemma ExtraCellsDropped(headers: seq<string>, row: seq<string>)
    requires |row| > |headers|
    ensures RecordOf(headers, row) == RecordOf(headers, row[..|headers|])
  {
    RecordUpToCells(Keys(headers), row, row[..|headers|], |headers|);
  }

  /** A missing cell reads as an empty one. */
  lemma MissingCellIsEmpty(headers: seq<string>, row: seq<string>)
    ensures RecordOf(headers, row) == RecordOf(headers, row + [""])
  {
    RecordUpToCells(Keys(headers), row, row + [""], |headers|);
  }
}
