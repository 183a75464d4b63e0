/** Step 2 of `preprocesar` in docker/inferencia.py without the k-nearest-neighbours refinement:
    missing cells of the numeric columns the imputer knows get the stored
    median, missing cells of the text columns get the stored mode.
    Line numbers in comments refer to that file. */
module Fallback {
  import opened Tables

  /** `column.fillna(stats)` when `stats` is a per-column Series: the
      column's missing cells get its stored value, if it has one. */
  function FillColumn(col: Column, stats: map<string, Cell>): (r: Column)
    ensures r.name == col.name && r.dtype == col.dtype && |r.cells| == |col.cells|
  {
    if col.name in stats then
      col.(cells := seq(|col.cells|, k requires 0 <= k < |col.cells| =>
        if col.cells[k].Missing? then stats[col.name] else col.cells[k]))
    else col
  }

  /** `data.select_dtypes(include='number').columns` cut down to the
      imputer's `feature_names_in_`, in frame order. */
  function NumericTargets(t: Table, features: seq<string>): (r: seq<string>)
    ensures forall n :: n in r <==> exists i :: 0 <= i < |t| && t[i].name == n && t[i].dtype == Number && n in features
    ensures forall n :: n in r ==> n in Names(t)
    ensures Distinct(Names(t)) ==> Distinct(r)
    decreases |t|
  {
    if t == [] then []
    else
      var rest := NumericTargets(t[1..], features);
      assert Names(t) == [t[0].name] + Names(t[1..]);
      assert Distinct(Names(t)) ==> Distinct(rest) && t[0].name !in rest by {
        if Distinct(Names(t)) {
          DistinctTail(t);
        }
      }
      if t[0].dtype == Number && t[0].name in features then [t[0].name] + rest else rest
  }

  /** `data.select_dtypes(include='object').columns`, in frame order. */
  function ObjectColumns(t: Table): (r: seq<string>)
    ensures forall n :: n in r <==> exists i :: 0 <= i < |t| && t[i].name == n && t[i].dtype == Object
    ensures forall n :: n in r ==> n in Names(t)
    ensures Distinct(Names(t)) ==> Distinct(r)
    decreases |t|
  {
    if t == [] then []
    else
      var rest := ObjectColumns(t[1..]);
      assert Names(t) == [t[0].name] + Names(t[1..]);
      assert Distinct(Names(t)) ==> Distinct(rest) && t[0].name !in rest by {
        if Distinct(Names(t)) {
          DistinctTail(t);
        }
      }
      if t[0].dtype == Object then [t[0].name] + rest else rest
  }

  /** `data[targets] = data[targets].fillna(stats)`. */
  function FillOnly(t: Table, targets: seq<string>, stats: map<string, Cell>): Table
  {
    seq(|t|, i requires 0 <= i < |t| => if t[i].name in targets then FillColumn(t[i], stats) else t[i])
  }

  /** The table after lines 38-45 without the imputer's transform: numeric
      targets first, then the text columns. */
  function Filled(t: Table, features: seq<string>, medians: map<string, Cell>, modes: map<string, Cell>): Table
  {
    FillOnly(FillOnly(t, NumericTargets(t, features), medians), ObjectColumns(t), modes)
  }

  /** Filling keeps every label, dtype and length. */
  lemma FilledShape(t: Table, rows: nat, features: seq<string>, medians: map<string, Cell>, modes: map<string, Cell>)
    requires WellFormed(t, rows)
    ensures Names(Filled(t, features, medians, modes)) == Names(t)
    ensures WellFormed(Filled(t, features, medians, modes), rows)
    ensures forall i :: 0 <= i < |t| ==> Filled(t, features, medians, modes)[i].dtype == t[i].dtype
  {
    var mid := FillOnly(t, NumericTargets(t, features), medians);
    assert Names(mid) == Names(t);
    assert Names(FillOnly(mid, ObjectColumns(t), modes)) == Names(mid);
  }

  /** Which fill a column of the table goes through. */
  lemma TargetsAt(t: Table, features: seq<string>, i: int)
    requires Distinct(Names(t))
    requires 0 <= i < |t|
    ensures t[i].name in NumericTargets(t, features) <==> t[i].dtype == Number && t[i].name in features
    ensures t[i].name in ObjectColumns(t) <==> t[i].dtype == Object
  {
    UniqueIndex(t, i);
  }

  /** What step 2 does to one cell: a present cell is never overwritten; a
      missing cell of a numeric column the imputer knows takes the stored
      median, a missing cell of a text column takes the stored mode, and any
      other missing cell stays missing. */
  lemma FilledCell(t: Table, features: seq<string>, medians: map<string, Cell>, modes: map<string, Cell>, i: int, k: int)
    requires Distinct(Names(t))
    requires 0 <= i < |t| && 0 <= k < |t[i].cells|
    ensures k < |Filled(t, features, medians, modes)[i].cells|
    ensures !t[i].cells[k].Missing? ==> Filled(t, features, medians, modes)[i].cells[k] == t[i].cells[k]
    ensures t[i].cells[k].Missing? && t[i].dtype == Number && t[i].name in features && t[i].name in medians ==>
      Filled(t, features, medians, modes)[i].cells[k] == medians[t[i].name]
    ensures t[i].cells[k].Missing? && t[i].dtype == Object && t[i].name in modes ==>
      Filled(t, features, medians, modes)[i].cells[k] == modes[t[i].name]
    ensures (&& t[i].cells[k].Missing?
             && !(t[i].dtype == Number && t[i].name in features && t[i].name in medians)
             && !(t[i].dtype == Object && t[i].name in modes))
      ==> Filled(t, features, medians, modes)[i].cells[k].Missing?
  {
    TargetsAt(t, features, i);
    var mid := FillOnly(t, NumericTargets(t, features), medians);
    assert mid[i] == if t[i].dtype == Number && t[i].name in features then FillColumn(t[i], medians) else t[i];
    var f := FillOnly(mid, ObjectColumns(t), modes);
    assert f[i] == if t[i].dtype == Object then FillColumn(mid[i], modes) else mid[i];
  }

  /** Numeric columns the imputer does not know are excluded from the numeric
      fill and kept whole; so are indicator columns and a column for which
      no statistic is stored. */
  lemma FilledUntouched(t: Table, features: seq<string>, medians: map<string, Cell>, modes: map<string, Cell>, i: int)
    requires 0 <= i < |t|
    requires Distinct(Names(t))
    ensures t[i].dtype == Number && t[i].name !in features ==> Filled(t, features, medians, modes)[i] == t[i]
    ensures t[i].name !in medians && t[i].name !in modes ==> Filled(t, features, medians, modes)[i] == t[i]
    ensures t[i].dtype == Boolean ==> Filled(t, features, medians, modes)[i] == t[i]
  {
    TargetsAt(t, features, i);
  }

  predicate NoMissing(t: Table)
  {
    forall i, k :: 0 <= i < |t| && 0 <= k < |t[i].cells| ==> !t[i].cells[k].Missing?
  }

  /** A table with no missing cell comes out of the fill unchanged. */
  lemma FilledComplete(t: Table, features: seq<string>, medians: map<string, Cell>, modes: map<string, Cell>)
    requires Distinct(Names(t))
    requires NoMissing(t)
    ensures Filled(t, features, medians, modes) == t
  {
    var f := Filled(t, features, medians, modes);
    forall i | 0 <= i < |t|
      ensures f[i] == t[i]
    {
      forall k | 0 <= k < |t[i].cells|
        ensures f[i].cells[k] == t[i].cells[k]
      {
        FilledCell(t, features, medians, modes, i, k);
      }
    }
  }

  /** Filling twice is filling once, whatever the statistics: a missing
      median or mode fills nothing either time. */
  lemma FilledIdempotent(t: Table, features: seq<string>, medians: map<string, Cell>, modes: map<string, Cell>)
    requires Distinct(Names(t))
    ensures Filled(Filled(t, features, medians, modes), features, medians, modes) == Filled(t, features, medians, modes)
  {
    var f := Filled(t, features, medians, modes);
    var ff := Filled(f, features, medians, modes);
    assert Names(f) == Names(t) by {
      var mid := FillOnly(t, NumericTargets(t, features), medians);
      assert Names(mid) == Names(t);
    }
    forall i | 0 <= i < |t|
      ensures ff[i] == f[i]
    {
      assert f[i].name == t[i].name && f[i].dtype == t[i].dtype;
      forall k | 0 <= k < |f[i].cells|
        ensures ff[i].cells[k] == f[i].cells[k]
      {
        FilledCell(t, features, medians, modes, i, k);
        FilledCell(f, features, medians, modes, i, k);
      }
    }
  }
}
