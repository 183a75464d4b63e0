/** `preprocesar` in docker/inferencia.py: the frame handed in is updated in place by steps 1 and 2,
    then replaced by the one-hot encoded frame, padded with zero columns and
    projected onto the scaler's column list.
    Line numbers in comments refer to that file. */
module Pipeline {
  import opened Tables
  import opened Directions
  import opened Fallback
  import opened Dummies
  import opened Schema

  /** A pandas DataFrame whose columns are updated in place. */
  class Frame {
    var cols: Table
    var rows: nat

    predicate Valid()
      reads this
    {
      WellFormed(cols, rows)
    }

    constructor(cols: Table, rows: nat)
      requires WellFormed(cols, rows)
      ensures this.cols == cols && this.rows == rows
      ensures Valid()
    {
      this.cols := cols;
      this.rows := rows;
    }

    /** Lines 32-34: each wind-direction column that is present is replaced
        by its normalised copy. */
    method NormalizeDirections()
      requires Valid()
      modifies this
      ensures rows == old(rows)
      ensures cols == Normalized(old(cols))
      ensures Valid()
    {
      ghost var t0 := cols;
      var targets := WIND_DIR_COLUMNS;
      for k := 0 to |targets|
        invariant rows == old(rows)
        invariant cols == NormalizeOnly(t0, targets[..k])
        invariant Names(cols) == Names(t0)
        invariant WellFormed(cols, rows)
      {
        var col := targets[k];
        assert targets[..k + 1] == targets[..k] + [col];
        assert col !in targets[..k];
        NormalizeOnlyStep(t0, targets[..k], col);
        if col in Names(cols) {
          var i := IndexOf(cols, col);
          IndexOfByNames(cols, t0, col);
          assert cols[i] == t0[i];
          cols := cols[i := NormalizeColumn(cols[i])];
          assert Names(cols) == Names(t0);
        }
      }
      assert targets[..|targets|] == targets;
    }

    /** Lines 38-45 without the imputer's transform: the numeric columns the
        imputer knows take the stored medians where they are missing, then
        the text columns take the stored modes. */
    method FillMissing(features: seq<string>, medians: map<string, Cell>, modes: map<string, Cell>)
      requires Valid()
      modifies this
      ensures rows == old(rows)
      ensures cols == Filled(old(cols), features, medians, modes)
      ensures Valid()
    {
      FilledShape(cols, rows, features, medians, modes);
      var numericCols := NumericTargets(cols, features);
      var categoricalCols := ObjectColumns(cols);
      cols := FillOnly(cols, numericCols, medians);
      cols := FillOnly(cols, categoricalCols, modes);
    }

    /** Lines 55-57: every schema label the frame lacks is added as a column
        of zeros, in whatever order the set yields them. */
    method AddMissingColumns(schema: seq<string>)
      requires Valid()
      modifies this
      ensures rows == old(rows)
      ensures PaddedWith(cols, old(cols), schema, rows)
      ensures Valid()
    {
      ghost var t0 := cols;
      var missing := MissingNames(schema, cols);
      while missing != {}
        invariant rows == old(rows)
        invariant WellFormed(cols, rows)
        invariant |t0| <= |cols| && cols[..|t0|] == t0
        invariant forall n :: n in missing ==> n in schema && n !in Names(cols)
        invariant forall j :: |t0| <= j < |cols| ==>
          && cols[j] == ZeroColumn(cols[j].name, rows)
          && cols[j].name in schema && cols[j].name !in Names(t0)
        invariant forall n :: n in schema ==> n in Names(cols) || n in missing
        decreases |missing|
      {
        var c :| c in missing;
        ghost var before := cols;
        cols := cols + [ZeroColumn(c, rows)];
        missing := missing - {c};
        assert Names(cols) == Names(before) + [c];
        assert cols[..|before|] == before;
        assert cols[..|t0|] == before[..|t0|];
        assert Distinct(Names(cols)) by {
          DistinctConcat(Names(before), [c]);
        }
        forall j | |t0| <= j < |cols|
          ensures cols[j].name !in Names(t0)
        {
          if j < |before| {
            assert cols[j] == before[j];
          } else {
            assert Names(t0) == Names(before)[..|t0|];
          }
        }
      }
    }
  }

  /** What the pipeline loads from disk: the imputer's feature list, the
      stored medians and modes, and the scaler's column list. */
  datatype Artifacts = Artifacts(
    features: seq<string>,
    medians: map<string, Cell>,
    modes: map<string, Cell>,
    schema: seq<string>)

  /** The frame steps 1 and 2 leave in place. */
  function Prepared(t: Table, art: Artifacts): Table
  {
    Filled(Normalized(t), art.features, art.medians, art.modes)
  }

  /** What `preprocesar` returns before scaling, described by stages. */
  function Preprocessed(t: Table, rows: nat, art: Artifacts): Table
  {
    Aligned(Encoded(Prepared(t, art)), art.schema, rows)
  }

  /** The preparation stages keep the frame well formed. */
  lemma PreparedShape(t: Table, rows: nat, art: Artifacts)
    requires WellFormed(t, rows)
    ensures WellFormed(Prepared(t, art), rows)
    ensures Names(Prepared(t, art)) == Names(t)
  {
    NormalizedMeaning(t, rows);
    FilledShape(Normalized(t), rows, art.features, art.medians, art.modes);
  }

  /** The preprocessed frame has exactly the scaler's columns, in its order,
      one cell per input row, and no schema label is missing. */
  lemma PreprocessedMeaning(t: Table, rows: nat, art: Artifacts)
    requires WellFormed(t, rows)
    requires Distinct(art.schema)
    requires Encodable(Prepared(t, art))
    ensures Names(Preprocessed(t, rows, art)) == art.schema
    ensures WellFormed(Preprocessed(t, rows, art), rows)
    ensures MissingNames(art.schema, Preprocessed(t, rows, art)) == {}
  {
    PreparedShape(t, rows, art);
    EncodedMeaning(Prepared(t, art), rows);
    AlignedMeaning(Encoded(Prepared(t, art)), art.schema, rows);
  }

  /** Lines 30-60 as written. The frame the caller passed in is itself
      rewritten by steps 1 and 2, and, when no column is one-hot encoded,
      also receives the zero columns of step 4; the frame returned is a new
      one. `missing` is the set recomputed at line 60. */
  method Preprocess(data: Frame, art: Artifacts) returns (out: Frame, missing: set<string>)
    requires data.Valid()
    requires Distinct(art.schema)
    requires Encodable(Prepared(data.cols, art))
    modifies data
    ensures out.cols == Preprocessed(old(data.cols), old(data.rows), art)
    ensures out.rows == old(data.rows) && out.Valid()
    ensures missing == {}
    ensures data.rows == old(data.rows)
    ensures Present(DUMMY_CANDIDATES, Prepared(old(data.cols), art)) != [] ==>
      data.cols == Prepared(old(data.cols), art)
    ensures Present(DUMMY_CANDIDATES, Prepared(old(data.cols), art)) == [] ==>
      PaddedWith(data.cols, Prepared(old(data.cols), art), art.schema, data.rows)
  {
    ghost var t0 := data.cols;
    PreparedShape(t0, data.rows, art);
    PreprocessedMeaning(t0, data.rows, art);
    data.NormalizeDirections();
    data.FillMissing(art.features, art.medians, art.modes);
    var work := data;
    var enc := Present(DUMMY_CANDIDATES, data.cols);
    if enc != [] {
      EncodedMeaning(data.cols, data.rows);
      work := new Frame(GetDummies(data.cols, enc), data.rows);
    }
    ghost var encoded := work.cols;
    work.AddMissingColumns(art.schema);
    PaddedProjection(work.cols, encoded, art.schema, work.rows);
    out := new Frame(Project(work.cols, art.schema), work.rows);
    ProjectNames(work.cols, art.schema);
    missing := MissingNames(art.schema, out.cols);
  }

  /** The same pipeline run on a copy, so that the caller's frame, which
      option 1 goes on to write out with the predictions, is left as it
      was read. */
  method PreprocessOnCopy(data: Frame, art: Artifacts) returns (out: Frame, missing: set<string>)
    requires data.Valid()
    requires Distinct(art.schema)
    requires Encodable(Prepared(data.cols, art))
    ensures out.cols == Preprocessed(data.cols, data.rows, art)
    ensures out.rows == data.rows && out.Valid()
    ensures missing == {}
  {
    var copy := new Frame(data.cols, data.rows);
    out, missing := Preprocess(copy, art);
  }

  /** The discrepancy the in-place version shows: whatever the artifacts,
      a frame with the gust direction `NNE` is left by steps 1 and 2, which
      is what the caller of `Preprocess` gets back, with `N` in its place. */
  lemma InPlaceRewritesInput(art: Artifacts)
    ensures var t := [Column("WindGustDir", Object, [Str("NNE")])];
      && WellFormed(t, 1)
      && Prepared(t, art)[0].cells == [Str("N")]
      && Prepared(t, art) != t
  {
    var t := [Column("WindGustDir", Object, [Str("NNE")])];
    assert Names(t) == ["WindGustDir"];
    assert t[0].name in WIND_DIR_COLUMNS;
    InvertedValues();
    assert "NNE" in BUCKETS[0].1;
    assert NormalizeCell(Str("NNE")) == Str("N");
    var n := Normalized(t);
    assert n[0].cells == [Str("N")];
    NormalizedMeaning(t, 1);
    PreparedShape(t, 1, art);
    FilledCell(n, art.features, art.medians, art.modes, 0, 0);
    assert Prepared(t, art)[0].cells[0] == Str("N");
  }
}
