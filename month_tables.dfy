/**
 * The two month tables of the utilities (Spanish month name to number and `_n_` key to name),
 * read as object literals: their own string keys with values, in insertion order.
 */
module MonthTables {
  import opened Wrappers
  import opened Text

  /** An object literal: its own string-keyed properties in insertion order. */
  type Table<V> = seq<(string, V)>

  /** Property access `t[key]` on an object literal; `None` is `undefined`. */
  function Lookup<V>(t: Table<V>, key: string): (r: Option<V>)
    ensures r.None? <==> forall i :: 0 <= i < |t| ==> t[i].0 != key
    ensures r.Some? ==> exists i :: 0 <= i < |t| && t[i].0 == key && t[i].1 == r.value
  {
    if |t| == 0 then None
    else if t[0].0 == key then Some(t[0].1)
    else Lookup(t[1..], key)
  }

  /** `Object.values(t)`: the values in insertion order. */
  function Values<V>(t: Table<V>): (vs: seq<V>)
    ensures |vs| == |t|
    ensures forall i :: 0 <= i < |t| ==> vs[i] == t[i].1
  {
    if |t| == 0 then [] else [t[0].1] + Values(t[1..])
  }

  /** `DateUtils.monthNumber`. */
  const MonthNumber: Table<int> := [
    ("enero", 1), ("febrero", 2), ("marzo", 3), ("abril", 4), ("mayo", 5), ("junio", 6),
    ("julio", 7), ("agosto", 8), ("septiembre", 9), ("octubre", 10), ("noviembre", 11), ("diciembre", 12)]

  /** The key `_n_` under which `monthLabel` files month `n`. */
  function LabelKey(n: int): string {
    "_" + IntToString(n) + "_"
  }

  /** `DateUtils.monthLabel`, whose keys `_1_` to `_12_` are written here as `LabelKey(1)` to `LabelKey(12)`. */
  const MonthLabel: Table<string> := [
    (LabelKey(1), "enero"), (LabelKey(2), "febrero"), (LabelKey(3), "marzo"), (LabelKey(4), "abril"),
    (LabelKey(5), "mayo"), (LabelKey(6), "junio"), (LabelKey(7), "julio"), (LabelKey(8), "agosto"),
    (LabelKey(9), "septiembre"), (LabelKey(10), "octubre"), (LabelKey(11), "noviembre"), (LabelKey(12), "diciembre")]

  /** The keys are the strings the code uses: `_1_` to `_12_`. */
  lemma LabelKeysSpelled()
    ensures LabelKey(1) == "_1_" && LabelKey(9) == "_9_" && LabelKey(10) == "_10_" && LabelKey(12) == "_12_"
  {
    assert NatToString(1) == "1" && NatToString(9) == "9" && NatToString(10) == "10" && NatToString(12) == "12";
  }

  /** `monthNumber` numbers its names 1 to 12 in order. */
  lemma NumberValues()
    ensures |MonthNumber| == 12
    ensures forall i :: 0 <= i < 12 ==> MonthNumber[i].1 == i + 1
  {
  }

  /** The twelve names of `monthNumber` are distinct. */
  lemma NamesDistinct()
    ensures forall i, j :: 0 <= i < j < |MonthNumber| ==> MonthNumber[i].0 != MonthNumber[j].0
  {
  }

  /** `monthLabel` files the same names, in the same order, under `_1_` to `_12_`. */
  lemma LabelTable()
    ensures |MonthLabel| == 12
    ensures forall i :: 0 <= i < 12 ==> MonthLabel[i].0 == LabelKey(i + 1) && MonthLabel[i].1 == MonthNumber[i].0
  {
  }

  /** Two keys `_a_` and `_b_` are equal only for equal numbers. */
  lemma LabelKeyInjective(a: int, b: int)
    requires LabelKey(a) == LabelKey(b)
    ensures a == b
  {
    var ka, kb := LabelKey(a), LabelKey(b);
    assert ka[1..|ka| - 1] == IntToString(a);
    assert kb[1..|kb| - 1] == IntToString(b);
    IntToStringInjective(a, b);
  }

  /** `monthNumber` files each name under its own month number. */
  lemma NumberOfName()
    ensures forall i :: 0 <= i < 12 ==> Lookup(MonthNumber, MonthNumber[i].0) == Some(i + 1)
  {
    NumberValues();
    NamesDistinct();
    forall i | 0 <= i < 12
      ensures Lookup(MonthNumber, MonthNumber[i].0) == Some(i + 1)
    {
      LookupAt(MonthNumber, i);
    }
  }

  /** `monthLabel` files month `n` under `_n_` exactly when n is a month number. */
  lemma NameOfNumber(n: int)
    ensures 1 <= n <= 12 ==> Lookup(MonthLabel, LabelKey(n)) == Some(MonthNumber[n - 1].0)
    ensures (n < 1 || n > 12) ==> Lookup(MonthLabel, LabelKey(n)) == None
  {
    LabelTable();
    forall a, b | 0 <= a < b < |MonthLabel|
      ensures MonthLabel[a].0 != MonthLabel[b].0
    {
      if MonthLabel[a].0 == MonthLabel[b].0 {
        LabelKeyInjective(a + 1, b + 1);
      }
    }
    if 1 <= n <= 12 {
      LookupAt(MonthLabel, n - 1);
    } else {
      forall i | 0 <= i < |MonthLabel|
        ensures MonthLabel[i].0 != LabelKey(n)
      {
        if MonthLabel[i].0 == LabelKey(n) {
          LabelKeyInjective(i + 1, n);
        }
      }
    }
  }

  /** `Object.values(monthLabel)` lists the names of `monthNumber` in its order. */
  lemma LabelsAreNames()
    ensures |Values(MonthLabel)| == 12
    ensures forall i :: 0 <= i < 12 ==> Values(MonthLabel)[i] == MonthNumber[i].0
  {
    LabelTable();
  }

  /** The names of `Object.values(monthLabel)`, looked up in `monthNumber`, count 1 to 12. */
  lemma LabelArrayNumbers()
    ensures |Values(MonthLabel)| == 12
    ensures forall i :: 0 <= i < 12 ==> Lookup(MonthNumber, Values(MonthLabel)[i]) == Some(i + 1)
  {
    LabelsAreNames();
    NumberOfName();
  }

  /** Looking up `_n_` in `monthLabel` finds the n-th value exactly for the month numbers. */
  lemma LabelByNumber(n: int)
    ensures 1 <= n <= 12 ==> Lookup(MonthLabel, LabelKey(n)) == Some(Values(MonthLabel)[n - 1])
    ensures (n < 1 || n > 12) ==> Lookup(MonthLabel, LabelKey(n)) == None
  {
    NameOfNumber(n);
    LabelsAreNames();
  }

  /** `getMonthsLabelArray()`: the twelve month names, January first, each naming its month number. */
  function GetMonthsLabelArray(): (r: seq<string>)
    ensures |r| == 12
    ensures forall i :: 0 <= i < 12 ==> Lookup(MonthNumber, r[i]) == Some(i + 1)
  {
    LabelArrayNumbers();
    Values(MonthLabel)
  }

  /**
   * `getMonthLabelByNum(n)`: defined exactly for the month numbers 1 to 12, where it is the
   * n-th name of `getMonthsLabelArray()` and `monthNumber` maps it back to n.
   */
  function GetMonthLabelByNum(n: int): (r: Option<string>)
    ensures r.Some? <==> 1 <= n <= 12
    ensures r.Some? ==> r.value == GetMonthsLabelArray()[n - 1] && Lookup(MonthNumber, r.value) == Some(n)
  {
    LabelByNumber(n);
    LabelArrayNumbers();
    Lookup(MonthLabel, LabelKey(n))
  }

  /** In a table with distinct keys, looking up the i-th key yields the i-th value. */
  lemma LookupAt<V>(t: Table<V>, i: nat)
    requires i < |t|
    requires forall a, b :: 0 <= a < b < |t| ==> t[a].0 != t[b].0
    ensures Lookup(t, t[i].0) == Some(t[i].1)
  {
  }

  /** `monthNumber` and `monthLabel` are inverse: each name's number labels that name again. */
  lemma MonthTablesInverse()
    ensures forall i :: 0 <= i < |MonthNumber| ==> GetMonthLabelByNum(MonthNumber[i].1) == Some(MonthNumber[i].0)
  {
    NumberValues();
    LabelsAreNames();
    forall i | 0 <= i < |MonthNumber|
      ensures GetMonthLabelByNum(MonthNumber[i].1) == Some(MonthNumber[i].0)
    {
      assert GetMonthLabelByNum(i + 1) == Some(Values(MonthLabel)[i]);
    }
  }
}
