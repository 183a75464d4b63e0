/** Step 4 of `preprocesar` in docker/inferencia.py: the frame is brought to the column list the
    scaler was fitted on. Schema columns the frame lacks are added as columns
    of zeros, then the frame is cut down to the schema, in schema order.
    Line numbers in comments refer to that file. */
module Schema {
  import opened Tables

  /** `data[col] = 0`: an integer column of zeros. */
  function ZeroColumn(name: string, rows: nat): Column
  {
    Column(name, Number, seq(rows, k => Num(0.0)))
  }

  /** `set(columnas_entrenamiento) - set(data.columns)`. */
  function MissingNames(schema: seq<string>, t: Table): set<string>
  {
    set n | n in schema && n !in Names(t)
  }

  /** `data[columnas_entrenamiento]`: the schema columns in schema order; a
      schema label the frame lacks would raise `KeyError`, hence the
      precondition. */
  function Project(t: Table, schema: seq<string>): Table
    requires forall n :: n in schema ==> n in Names(t)
  {
    seq(|schema|, j requires 0 <= j < |schema| => Lookup(t, schema[j]))
  }

  /** The frame step 4 produces, described directly: the frame's own column
      where it has one, a column of zeros where it has none. */
  function Aligned(t: Table, schema: seq<string>, rows: nat): Table
  {
    seq(|schema|, j requires 0 <= j < |schema| =>
      if schema[j] in Names(t) then Lookup(t, schema[j]) else ZeroColumn(schema[j], rows))
  }

  /** After the projection the frame has exactly the schema's labels, so the
      recomputed set of missing labels is empty. */
  lemma ProjectNames(t: Table, schema: seq<string>)
    requires forall n :: n in schema ==> n in Names(t)
    ensures Names(Project(t, schema)) == schema
    ensures MissingNames(schema, Project(t, schema)) == {}
  {
    var p := Project(t, schema);
    assert Names(p) == schema;
  }

  /** The aligned frame: its labels are the schema in order; it keeps the
      row count; a schema column the frame has is carried over whole; a
      schema column it lacks is all zeros; a column outside the schema is
      dropped; and nothing is missing any more. */
  lemma AlignedMeaning(t: Table, schema: seq<string>, rows: nat)
    requires WellFormed(t, rows)
    requires Distinct(schema)
    ensures Names(Aligned(t, schema, rows)) == schema
    ensures WellFormed(Aligned(t, schema, rows), rows)
    ensures forall i, j :: 0 <= i < |t| && 0 <= j < |schema| && t[i].name == schema[j] ==>
      Aligned(t, schema, rows)[j] == t[i]
    ensures forall j :: 0 <= j < |schema| && schema[j] !in Names(t) ==>
      && Aligned(t, schema, rows)[j].dtype == Number
      && forall k :: 0 <= k < rows ==> Aligned(t, schema, rows)[j].cells[k] == Num(0.0)
    ensures forall i :: 0 <= i < |t| && t[i].name !in schema ==> t[i].name !in Names(Aligned(t, schema, rows))
    ensures MissingNames(schema, Aligned(t, schema, rows)) == {}
  {
    var a := Aligned(t, schema, rows);
    assert Names(a) == schema;
    forall j | 0 <= j < |schema|
      ensures |a[j].cells| == rows
    {
      if schema[j] in Names(t) {
        var i := IndexOf(t, schema[j]);
      }
    }
    forall i, j | 0 <= i < |t| && 0 <= j < |schema| && t[i].name == schema[j]
      ensures a[j] == t[i]
    {
      LookupAt(t, i);
    }
  }

  /** Aligning an aligned frame again changes nothing. */
  lemma AlignedIdempotent(t: Table, schema: seq<string>, rows: nat)
    requires WellFormed(t, rows)
    requires Distinct(schema)
    ensures Aligned(Aligned(t, schema, rows), schema, rows) == Aligned(t, schema, rows)
  {
    var a := Aligned(t, schema, rows);
    AlignedMeaning(t, schema, rows);
    forall j | 0 <= j < |schema|
      ensures Aligned(a, schema, rows)[j] == a[j]
    {
      assert a[j].name == Names(a)[j] == schema[j];
      LookupAt(a, j);
    }
  }

  /** What the zero-column loop leaves behind: the frame unchanged at the
      front, then a column of zeros for each schema label the frame lacked,
      in any order, and no other column. */
  predicate PaddedWith(u: Table, t: Table, schema: seq<string>, rows: nat)
  {
    && |t| <= |u|
    && u[..|t|] == t
    && Distinct(Names(u))
    && (forall j :: |t| <= j < |u| ==>
          && u[j] == ZeroColumn(u[j].name, rows)
          && u[j].name in schema && u[j].name !in Names(t))
    && (forall n :: n in schema ==> n in Names(u))
  }

  /** Projecting a padded frame onto the schema gives the aligned frame,
      whatever order the zero columns were added in. */
  lemma PaddedProjection(u: Table, t: Table, schema: seq<string>, rows: nat)
    requires PaddedWith(u, t, schema, rows)
    ensures Project(u, schema) == Aligned(t, schema, rows)
  {
    var p, a := Project(u, schema), Aligned(t, schema, rows);
    forall j | 0 <= j < |schema|
      ensures p[j] == a[j]
    {
      var i := IndexOf(u, schema[j]);
      LookupAt(u, i);
      if i < |t| {
        assert u[i] == t[i];
        assert Names(t)[i] == schema[j];
        assert Names(u[..|t|]) == Names(t);
        assert Distinct(Names(t)) by {
          forall x, y | 0 <= x < y < |t|
            ensures Names(t)[x] != Names(t)[y]
          {
            assert Names(u)[x] == Names(t)[x] && Names(u)[y] == Names(t)[y];
          }
        }
        LookupAt(t, i);
      } else {
        assert schema[j] !in Names(t);
      }
    }
  }
}
