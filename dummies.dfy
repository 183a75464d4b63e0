/** Step 3 of `preprocesar` in docker/inferencia.py: `pd.get_dummies(data, columns=..., drop_first=True)`
    over the wind-direction and rain-today columns that are present. Each
    encoded column is removed; the other columns keep their order and come
    first; then, per encoded column and in candidate order, one boolean
    indicator column per observed category except the smallest, named
    `<column>_<category>`. A missing cell sets no indicator.
    Line numbers in comments refer to that file. */
module Dummies {
  import opened Tables
  import opened TextOrder

  const DUMMY_CANDIDATES: seq<string> := ["WindGustDir", "WindDir9am", "WindDir3pm", "RainToday"]

  /** `[col for col in candidates if col in data.columns]`. */
  function Present(candidates: seq<string>, t: Table): (r: seq<string>)
    ensures forall n :: n in r <==> n in candidates && n in Names(t)
    ensures Distinct(candidates) ==> Distinct(r)
    decreases |candidates|
  {
    if candidates == [] then []
    else
      var rest := Present(candidates[1..], t);
      assert Distinct(candidates) ==> candidates[0] !in candidates[1..];
      if candidates[0] in Names(t) then [candidates[0]] + rest else rest
  }

  /** The text values of a column, in row order (missing cells skipped). */
  function TextValues(cells: seq<Cell>): (r: seq<string>)
    ensures forall v :: v in r <==> Str(v) in cells
    decreases |cells|
  {
    if cells == [] then []
    else
      var rest := TextValues(cells[1..]);
      assert forall c :: c in cells <==> c == cells[0] || c in cells[1..];
      if cells[0].Str? then [cells[0].s] + rest else rest
  }

  /** pandas' `prefix_sep='_'`. */
  function IndicatorName(base: string, cat: string): string
  {
    base + "_" + cat
  }

  predicate HasPrefix(p: string, n: string)
  {
    |p| <= |n| && n[..|p|] == p
  }

  /** Sorted distinct text values of one column. */
  function ColumnCategories(col: Column): (cats: seq<string>)
    ensures Sorted(cats)
    ensures forall v :: v in cats <==> Str(v) in col.cells
  {
    Categories(TextValues(col.cells))
  }

  function Indicator(col: Column, cat: string): Column
  {
    Column(IndicatorName(col.name, cat), Boolean,
      seq(|col.cells|, k requires 0 <= k < |col.cells| => Flag(col.cells[k] == Str(cat))))
  }

  /** The indicator columns of one encoded column, first category dropped. */
  function Indicators(col: Column): Table
  {
    var cats := ColumnCategories(col);
    if cats == [] then []
    else seq(|cats| - 1, k requires 0 <= k < |cats| - 1 => Indicator(col, cats[k + 1]))
  }

  lemma IndicatorsAt(col: Column)
    ensures var cats := ColumnCategories(col);
      && |Indicators(col)| == (if cats == [] then 0 else |cats| - 1)
      && forall k :: 0 <= k < |Indicators(col)| ==> Indicators(col)[k] == Indicator(col, cats[k + 1])
  {
  }

  /** The indicator columns of all encoded columns, in the order listed. */
  function DummyBlock(t: Table, enc: seq<string>): Table
    requires forall n :: n in enc ==> n in Names(t)
    decreases |enc|
  {
    if enc == [] then []
    else Indicators(Lookup(t, enc[0])) + DummyBlock(t, enc[1..])
  }

  /** The columns that are not encoded, in frame order. */
  function Kept(t: Table, enc: seq<string>): (r: Table)
    ensures forall c :: c in r <==> c in t && c.name !in enc
    ensures Distinct(Names(t)) ==> Distinct(Names(r))
    ensures forall n :: n in Names(r) ==> n in Names(t)
    decreases |t|
  {
    if t == [] then []
    else
      var rest := Kept(t[1..], enc);
      assert forall c :: c in t <==> c == t[0] || c in t[1..];
      assert Names(t) == [t[0].name] + Names(t[1..]);
      assert Distinct(Names(t)) ==> Distinct(Names(rest)) && t[0].name !in Names(rest) by {
        if Distinct(Names(t)) {
          DistinctTail(t);
        }
      }
      if t[0].name in enc then rest
      else
        assert Names([t[0]] + rest) == [t[0].name] + Names(rest);
        [t[0]] + rest
  }

  function GetDummies(t: Table, enc: seq<string>): Table
    requires forall n :: n in enc ==> n in Names(t)
  {
    Kept(t, enc) + DummyBlock(t, enc)
  }

  /** Lines 48-51: encode the candidates present, if there are any. */
  function Encoded(t: Table): Table
  {
    var enc := Present(DUMMY_CANDIDATES, t);
    if enc == [] then t else GetDummies(t, enc)
  }

  /** What the model of the encoder relies on: the encoded columns hold only
      text or missing cells (the label pandas would give a numeric category
      is not modelled), and no column is already named like an indicator of
      an encoded column (pandas would then produce two columns with one
      label). */
  predicate Encodable(t: Table)
  {
    var enc := Present(DUMMY_CANDIDATES, t);
    && (forall i, k :: 0 <= i < |t| && t[i].name in enc && 0 <= k < |t[i].cells| ==>
          t[i].cells[k].Str? || t[i].cells[k].Missing?)
    && (forall i, b :: 0 <= i < |t| && b in enc ==> !HasPrefix(b + "_", t[i].name))
  }

  predicate NoUnderscore(n: string)
  {
    forall k :: 0 <= k < |n| ==> n[k] != '_'
  }

  lemma CandidatesShape()
    ensures Distinct(DUMMY_CANDIDATES)
    ensures forall b :: b in DUMMY_CANDIDATES ==> NoUnderscore(b)
  {
  }

  lemma IndicatorNamePrefix(base: string, cat: string)
    ensures HasPrefix(base + "_", IndicatorName(base, cat))
    ensures IndicatorName(base, cat)[|base| + 1..] == cat
  {
    assert IndicatorName(base, cat) == (base + "_") + cat;
  }

  /** Two labels free of `_` cannot both prefix one name with `_` after them
      unless they are equal. */
  lemma PrefixesDiffer(b: string, b': string, n: string)
    requires NoUnderscore(b) && NoUnderscore(b')
    requires b != b'
    requires HasPrefix(b + "_", n)
    ensures !HasPrefix(b' + "_", n)
  {
    var p, p' := b + "_", b' + "_";
    if |p'| <= |n| {
      if |b| < |b'| {
        assert n[|b|] == p[|b|] == '_';
        assert p'[|b|] == b'[|b|] != '_';
        assert n[..|p'|][|b|] != p'[|b|];
      } else if |b'| < |b| {
        assert n[|b'|] == b[|b'|] != '_';
        assert p'[|b'|] == '_';
        assert n[..|p'|][|b'|] != p'[|b'|];
      } else {
        assert n[..|b|] == b;
        assert n[..|p'|][..|b'|] == n[..|b|];
        assert p'[..|b'|] == b';
      }
    }
  }

  /** Every indicator column of `col` is a boolean column as long as `col`,
      named `<col>_<category>`, and no two share a label. */
  lemma IndicatorsShape(col: Column)
    ensures Distinct(Names(Indicators(col)))
    ensures forall c :: c in Indicators(col) ==>
      c.dtype == Boolean && |c.cells| == |col.cells| && HasPrefix(col.name + "_", c.name)
  {
    var cats := ColumnCategories(col);
    var ind := Indicators(col);
    SortedDistinct(cats);
    IndicatorsAt(col);
    forall k | 0 <= k < |ind|
      ensures HasPrefix(col.name + "_", ind[k].name)
      ensures ind[k].name[|col.name| + 1..] == cats[k + 1]
    {
      IndicatorNamePrefix(col.name, cats[k + 1]);
    }
    forall k1, k2 | 0 <= k1 < k2 < |ind|
      ensures Names(ind)[k1] != Names(ind)[k2]
    {
      assert ind[k1].name[|col.name| + 1..] == cats[k1 + 1] != cats[k2 + 1] == ind[k2].name[|col.name| + 1..];
    }
  }

  /** Each indicator column stands for an observed category that is not the
      smallest. */
  lemma IndicatorCategory(col: Column, k: int)
    requires 0 <= k < |Indicators(col)|
    ensures Indicators(col)[k] == Indicator(col, ColumnCategories(col)[k + 1])
    ensures Str(ColumnCategories(col)[k + 1]) in col.cells
    ensures exists w :: Str(w) in col.cells && Below(w, ColumnCategories(col)[k + 1])
  {
    var cats := ColumnCategories(col);
    IndicatorsAt(col);
    assert Below(cats[0], cats[k + 1]) && Str(cats[0]) in col.cells;
  }

  /** Each observed category above some other observed category has an
      indicator column. */
  lemma CategoryIndicator(col: Column, v: string, w: string)
    requires Str(v) in col.cells && Str(w) in col.cells && Below(w, v)
    ensures exists k :: 0 <= k < |Indicators(col)| && Indicators(col)[k] == Indicator(col, v)
  {
    var cats := ColumnCategories(col);
    var j :| 0 <= j < |cats| && cats[j] == v;
    var i :| 0 <= i < |cats| && cats[i] == w;
    BelowAsymmetric(w, v);
    BelowIrreflexive(v);
    assert i < j;
    IndicatorsAt(col);
    assert Indicators(col)[j - 1] == Indicator(col, v);
  }

  /** An indicator column exists for exactly the observed categories other
      than the smallest (drop_first). */
  lemma IndicatorsNamed(col: Column, v: string)
    ensures IndicatorName(col.name, v) in Names(Indicators(col)) <==>
      Str(v) in col.cells && exists w :: Str(w) in col.cells && Below(w, v)
  {
    var ind := Indicators(col);
    IndicatorNamePrefix(col.name, v);
    if IndicatorName(col.name, v) in Names(ind) {
      var k :| 0 <= k < |ind| && Names(ind)[k] == IndicatorName(col.name, v);
      IndicatorCategory(col, k);
      IndicatorNamePrefix(col.name, ColumnCategories(col)[k + 1]);
    }
    if Str(v) in col.cells && exists w :: Str(w) in col.cells && Below(w, v) {
      var w :| Str(w) in col.cells && Below(w, v);
      CategoryIndicator(col, v, w);
      var k :| 0 <= k < |ind| && ind[k] == Indicator(col, v);
      assert Names(ind)[k] == IndicatorName(col.name, v);
    }
  }

  /** The indicator named after `v` is set in exactly the rows holding `v`,
      so no row has two indicators set. */
  lemma IndicatorsFlags(col: Column)
    ensures forall k, v, r ::
      (0 <= k < |Indicators(col)| && Indicators(col)[k].name == IndicatorName(col.name, v) && 0 <= r < |col.cells|) ==>
        |Indicators(col)[k].cells| == |col.cells| && Indicators(col)[k].cells[r] == Flag(col.cells[r] == Str(v))
    ensures forall k1, k2, r ::
      (&& 0 <= k1 < |Indicators(col)| && 0 <= k2 < |Indicators(col)| && 0 <= r < |col.cells|
       && |Indicators(col)[k1].cells| == |Indicators(col)[k2].cells| == |col.cells|
       && Indicators(col)[k1].cells[r] == Flag(true) && Indicators(col)[k2].cells[r] == Flag(true))
      ==> k1 == k2
  {
    var cats := ColumnCategories(col);
    var ind := Indicators(col);
    SortedDistinct(cats);
    IndicatorsAt(col);
    forall k, v, r | 0 <= k < |ind| && ind[k].name == IndicatorName(col.name, v) && 0 <= r < |col.cells|
      ensures ind[k].cells[r] == Flag(col.cells[r] == Str(v))
    {
      IndicatorNamePrefix(col.name, v);
      IndicatorNamePrefix(col.name, cats[k + 1]);
    }
  }

  /** A row holding the smallest category, or nothing, sets no indicator. */
  lemma IndicatorsOffOnReference(col: Column, r: int)
    requires 0 <= r < |col.cells|
    requires col.cells[r].Missing? || (col.cells[r].Str? && forall w :: Str(w) in col.cells ==> !Below(w, col.cells[r].s))
    ensures forall c :: c in Indicators(col) ==> |c.cells| == |col.cells| && c.cells[r] == Flag(false)
  {
    var cats := ColumnCategories(col);
    SortedDistinct(cats);
    IndicatorsAt(col);
    forall k | 0 <= k < |Indicators(col)|
      ensures Indicators(col)[k].cells[r] == Flag(false)
    {
      assert Below(cats[0], cats[k + 1]);
      assert Str(cats[0]) in col.cells;
      assert col.cells[r] != Str(cats[k + 1]);
    }
  }

  /** The indicator block of the encoded columns: boolean columns of the
      frame's length with unique labels, holding every indicator of every
      encoded column and nothing else. */
  lemma {:induction false} DummyBlockShape(t: Table, rows: nat, enc: seq<string>)
    requires WellFormed(t, rows)
    requires Distinct(enc)
    requires forall n :: n in enc ==> n in Names(t) && NoUnderscore(n)
    ensures Distinct(Names(DummyBlock(t, enc)))
    ensures forall c :: c in DummyBlock(t, enc) ==>
      && c.dtype == Boolean && |c.cells| == rows
      && exists b :: b in enc && HasPrefix(b + "_", c.name) && c in Indicators(Lookup(t, b))
    ensures forall b, c :: b in enc && c in Indicators(Lookup(t, b)) ==> c in DummyBlock(t, enc)
    decreases |enc|
  {
    if enc != [] {
      var col := Lookup(t, enc[0]);
      var head, rest := Indicators(col), DummyBlock(t, enc[1..]);
      assert Distinct(enc[1..]) by {
        forall i, j | 0 <= i < j < |enc[1..]|
          ensures enc[1..][i] != enc[1..][j]
        {
          assert enc[1..][i] == enc[i + 1] && enc[1..][j] == enc[j + 1];
        }
      }
      DummyBlockShape(t, rows, enc[1..]);
      IndicatorsShape(col);
      assert |col.cells| == rows by {
        var i :| 0 <= i < |t| && t[i] == col;
      }
      forall n | n in Names(head)
        ensures n !in Names(rest)
      {
        var k :| 0 <= k < |head| && Names(head)[k] == n;
        assert head[k] in head;
        if n in Names(rest) {
          var m :| 0 <= m < |rest| && Names(rest)[m] == n;
          assert rest[m] in rest;
          var b :| b in enc[1..] && HasPrefix(b + "_", rest[m].name) && rest[m] in Indicators(Lookup(t, b));
          PrefixesDiffer(enc[0], b, n);
        }
      }
      DistinctConcat(Names(head), Names(rest));
      NamesConcat(head, rest);
      forall b, c | b in enc && c in Indicators(Lookup(t, b))
        ensures c in DummyBlock(t, enc)
      {
        if b != enc[0] {
          assert b in enc[1..];
        }
      }
    }
  }

  lemma PrefixUnderscore(b: string, n: string)
    requires HasPrefix(b + "_", n)
    ensures !NoUnderscore(n)
  {
    assert n[..|b| + 1][|b|] == (b + "_")[|b|] == '_';
  }

  /** An indicator label of the block is not a label of the frame and holds
      an underscore. */
  lemma BlockNameFresh(t: Table, rows: nat, enc: seq<string>, n: string)
    requires WellFormed(t, rows)
    requires Distinct(enc)
    requires forall b :: b in enc ==> b in Names(t) && NoUnderscore(b)
    requires forall i, b :: 0 <= i < |t| && b in enc ==> !HasPrefix(b + "_", t[i].name)
    requires n in Names(DummyBlock(t, enc))
    ensures n !in Names(t) && !NoUnderscore(n)
  {
    var block := DummyBlock(t, enc);
    DummyBlockShape(t, rows, enc);
    var m :| 0 <= m < |block| && Names(block)[m] == n;
    assert block[m] in block;
    var b :| b in enc && HasPrefix(b + "_", n);
    PrefixUnderscore(b, n);
    forall i | 0 <= i < |t|
      ensures Names(t)[i] != n
    {
      assert !HasPrefix(b + "_", t[i].name);
    }
  }

  /** Step 3 as a whole: the result has the frame's rows and unique labels;
      every encoded column is gone and every indicator of it is there; every
      column that is not a candidate is kept; and every column of the result
      is a kept column or an indicator of one encoded column. */
  lemma EncodedMeaning(t: Table, rows: nat)
    requires WellFormed(t, rows)
    requires Encodable(t)
    ensures WellFormed(Encoded(t), rows)
    ensures forall n :: n in Present(DUMMY_CANDIDATES, t) ==> n !in Names(Encoded(t))
    ensures forall c :: c in t && c.name !in DUMMY_CANDIDATES ==> c in Encoded(t)
    ensures forall c :: c in Encoded(t) ==>
      || (c in t && c.name !in Present(DUMMY_CANDIDATES, t))
      || exists b :: b in Present(DUMMY_CANDIDATES, t) && c in Indicators(Lookup(t, b))
    ensures forall b, c :: b in Present(DUMMY_CANDIDATES, t) && c in Indicators(Lookup(t, b)) ==> c in Encoded(t)
  {
    var enc := Present(DUMMY_CANDIDATES, t);
    CandidatesShape();
    if enc != [] {
      var kept, block := Kept(t, enc), DummyBlock(t, enc);
      DummyBlockShape(t, rows, enc);
      forall n | n in Names(block)
        ensures n !in Names(kept) && n !in enc
      {
        BlockNameFresh(t, rows, enc, n);
      }
      forall n | n in Names(kept)
        ensures n !in enc
      {
        var m :| 0 <= m < |kept| && Names(kept)[m] == n;
        assert kept[m] in kept;
      }
      DistinctConcat(Names(kept), Names(block));
      NamesConcat(kept, block);
      forall c | c in kept
        ensures |c.cells| == rows
      {
        var i :| 0 <= i < |t| && t[i] == c;
      }
    }
  }

  /** Encoding leaves the frame as it is exactly when no candidate column is
      present. */
  lemma EncodedUnchanged(t: Table, rows: nat)
    requires WellFormed(t, rows)
    requires Encodable(t)
    ensures Encoded(t) == t <==> Present(DUMMY_CANDIDATES, t) == []
  {
    var enc := Present(DUMMY_CANDIDATES, t);
    if enc != [] {
      EncodedMeaning(t, rows);
      assert enc[0] in enc;
      assert enc[0] in Names(t) && enc[0] !in Names(Encoded(t));
    }
  }
}
