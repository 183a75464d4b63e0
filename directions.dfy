/** Step 1 of `preprocesar` in docker/inferencia.py: the sixteen compass labels of the wind-direction
    columns are folded into four cardinal buckets through a static map; values
    the map does not know are kept as they are.
    Line numbers in comments refer to that file. */
module Directions {
  import opened Tables

  /** A bucket label together with the compass labels it gathers. */
  type Bucket = (string, seq<string>)

  /** The dictionary `diccionario`, in the order it lists its entries. */
  const BUCKETS: seq<Bucket> := [
    ("N", ["N", "NNW", "NNE", "NE", "NW"]),
    ("S", ["S", "SSW", "SSE", "SE", "SW"]),
    ("E", ["E", "ENE", "ESE"]),
    ("W", ["W", "WNW", "WSW"])
  ]

  const BUCKET_NAMES: set<string> := {"N", "S", "E", "W"}

  const COMPASS_LABELS: set<string> := {
    "N", "NNW", "NNE", "NE", "NW",
    "S", "SSW", "SSE", "SE", "SW",
    "E", "ENE", "ESE",
    "W", "WNW", "WSW"
  }

  /** The columns step 1 rewrites, in the order it visits them. */
  const WIND_DIR_COLUMNS: seq<string> := ["WindGustDir", "WindDir9am", "WindDir3pm"]

  /** No compass label is listed under two buckets. */
  predicate DisjointLabels(bs: seq<Bucket>)
  {
    forall j, k, l :: 0 <= j < k < |bs| && l in bs[j].1 ==> l !in bs[k].1
  }

  /** The inner loop of the dict comprehension: every label of one bucket is
      bound to that bucket, later bindings overriding earlier ones. */
  function AddLabels(m: map<string, string>, key: string, labels: seq<string>): (r: map<string, string>)
    ensures forall l :: l in r <==> l in m || l in labels
    ensures forall l :: l in labels ==> r[l] == key
    ensures forall l :: l in m && l !in labels ==> r[l] == m[l]
    decreases |labels|
  {
    if labels == [] then m
    else AddLabels(m, key, labels[..|labels| - 1])[labels[|labels| - 1] := key]
  }

  /** `{valor: clave for clave, lista in d.items() for valor in lista}`. */
  function Invert(bs: seq<Bucket>): map<string, string>
    decreases |bs|
  {
    if bs == [] then map[]
    else AddLabels(Invert(bs[..|bs| - 1]), bs[|bs| - 1].0, bs[|bs| - 1].1)
  }

  /** `diccionario_invertido`. */
  const INVERTED: map<string, string> := Invert(BUCKETS)

  /** When no label is listed twice, the inverted map sends each listed label
      to the one bucket that lists it, and knows no other label. */
  lemma {:induction false} InvertExact(bs: seq<Bucket>)
    requires DisjointLabels(bs)
    ensures forall j, l :: 0 <= j < |bs| && l in bs[j].1 ==> l in Invert(bs) && Invert(bs)[l] == bs[j].0
    ensures forall l :: l in Invert(bs) ==> exists j :: 0 <= j < |bs| && l in bs[j].1
  {
    if bs != [] {
      var init := bs[..|bs| - 1];
      assert DisjointLabels(init);
      InvertExact(init);
      forall l | l in Invert(bs)
        ensures exists j :: 0 <= j < |bs| && l in bs[j].1
      {
        if l !in bs[|bs| - 1].1 {
          assert l in Invert(init);
          var j :| 0 <= j < |init| && l in init[j].1;
          assert bs[j] == init[j];
        }
      }
    }
  }

  lemma BucketsDisjoint()
    ensures DisjointLabels(BUCKETS)
  {
  }

  /** The inverted map written out by hand: the reference the comprehension
      is checked against. */
  const COMPASS_TO_BUCKET: map<string, string> := map[
    "N" := "N", "NNW" := "N", "NNE" := "N", "NE" := "N", "NW" := "N",
    "S" := "S", "SSW" := "S", "SSE" := "S", "SE" := "S", "SW" := "S",
    "E" := "E", "ENE" := "E", "ESE" := "E",
    "W" := "W", "WNW" := "W", "WSW" := "W"]

  lemma ListedInReference(j: int, l: string)
    requires 0 <= j < |BUCKETS| && l in BUCKETS[j].1
    ensures l in COMPASS_TO_BUCKET && COMPASS_TO_BUCKET[l] == BUCKETS[j].0
  {
    if j == 0 {
      assert BUCKETS[0].1 == ["N", "NNW", "NNE", "NE", "NW"];
    } else if j == 1 {
      assert BUCKETS[1].1 == ["S", "SSW", "SSE", "SE", "SW"];
    } else if j == 2 {
      assert BUCKETS[2].1 == ["E", "ENE", "ESE"];
    } else {
      assert BUCKETS[3].1 == ["W", "WNW", "WSW"];
    }
  }

  lemma ReferenceListed(l: string)
    requires l in COMPASS_TO_BUCKET
    ensures exists j :: 0 <= j < |BUCKETS| && l in BUCKETS[j].1
  {
    if l in ["N", "NNW", "NNE", "NE", "NW"] {
      assert l in BUCKETS[0].1;
    } else if l in ["S", "SSW", "SSE", "SE", "SW"] {
      assert l in BUCKETS[1].1;
    } else if l in ["E", "ENE", "ESE"] {
      assert l in BUCKETS[2].1;
    } else {
      assert l in BUCKETS[3].1;
    }
  }

  lemma ReferenceKeys()
    ensures |COMPASS_LABELS| == 16
    ensures COMPASS_TO_BUCKET.Keys == COMPASS_LABELS
  {
  }

  lemma ReferenceFixesBuckets()
    ensures forall b :: b in BUCKET_NAMES ==> b in COMPASS_TO_BUCKET && COMPASS_TO_BUCKET[b] == b
  {
  }

  /** The comprehension builds exactly the hand-written table. */
  lemma InvertedIsReference()
    ensures INVERTED == COMPASS_TO_BUCKET
  {
    BucketsDisjoint();
    InvertExact(BUCKETS);
    forall l | l in INVERTED
      ensures l in COMPASS_TO_BUCKET && INVERTED[l] == COMPASS_TO_BUCKET[l]
    {
      var j :| 0 <= j < |BUCKETS| && l in BUCKETS[j].1;
      ListedInReference(j, l);
    }
    forall l | l in COMPASS_TO_BUCKET
      ensures l in INVERTED
    {
      ReferenceListed(l);
    }
  }

  /** The four bucket lists together hold exactly the sixteen compass
      labels, and the inverted map knows exactly those. */
  lemma InvertedKeys()
    ensures |COMPASS_LABELS| == 16
    ensures INVERTED.Keys == COMPASS_LABELS
  {
    InvertedIsReference();
    ReferenceKeys();
  }

  /** Each compass label goes to exactly one of N, S, E and W: the bucket
      that lists it. */
  lemma InvertedValues()
    ensures forall l :: l in INVERTED ==> INVERTED[l] in BUCKET_NAMES
    ensures forall j, l :: 0 <= j < |BUCKETS| && l in BUCKETS[j].1 ==> l in INVERTED && INVERTED[l] == BUCKETS[j].0
  {
    InvertedIsReference();
    forall j, l | 0 <= j < |BUCKETS| && l in BUCKETS[j].1
      ensures l in INVERTED && INVERTED[l] == BUCKETS[j].0
    {
      ListedInReference(j, l);
    }
  }

  /** Each bucket label is listed under its own bucket. */
  lemma InvertedFixesBuckets()
    ensures forall b :: b in BUCKET_NAMES ==> b in INVERTED && INVERTED[b] == b
  {
    InvertedIsReference();
    ReferenceFixesBuckets();
  }

  /** `series.map(diccionario_invertido).fillna(series)` on one cell. */
  function NormalizeCell(c: Cell): Cell
  {
    if c.Str? && c.s in INVERTED then Str(INVERTED[c.s]) else c
  }

  function NormalizeColumn(col: Column): (r: Column)
    ensures r.name == col.name && r.dtype == col.dtype && |r.cells| == |col.cells|
  {
    col.(cells := seq(|col.cells|, k requires 0 <= k < |col.cells| => NormalizeCell(col.cells[k])))
  }

  /** The table after the columns named in `targets` have been rewritten. */
  function NormalizeOnly(t: Table, targets: seq<string>): Table
  {
    seq(|t|, i requires 0 <= i < |t| => if t[i].name in targets then NormalizeColumn(t[i]) else t[i])
  }

  /** The table after step 1. */
  function Normalized(t: Table): Table
  {
    NormalizeOnly(t, WIND_DIR_COLUMNS)
  }

  /** A compass label becomes the bucket that lists it; anything else, a
      missing value and a number included, is left as it is. */
  lemma NormalizeCellMeaning(c: Cell)
    ensures forall j :: 0 <= j < |BUCKETS| && c.Str? && c.s in BUCKETS[j].1 ==> NormalizeCell(c) == Str(BUCKETS[j].0)
    ensures c.Str? && c.s in COMPASS_LABELS ==> NormalizeCell(c).Str? && NormalizeCell(c).s in BUCKET_NAMES
    ensures !(c.Str? && c.s in COMPASS_LABELS) ==> NormalizeCell(c) == c
  {
    InvertedKeys();
    InvertedValues();
  }

  /** Every bucket label is listed under its own bucket, so normalising twice
      is normalising once. */
  lemma NormalizeCellIdempotent(c: Cell)
    ensures NormalizeCell(NormalizeCell(c)) == NormalizeCell(c)
  {
    InvertedValues();
    InvertedFixesBuckets();
  }

  /** Step 1 keeps the labels, dtypes and lengths of all columns, rewrites
      only the three wind-direction columns, and is idempotent. */
  lemma NormalizedMeaning(t: Table, rows: nat)
    requires WellFormed(t, rows)
    ensures WellFormed(Normalized(t), rows)
    ensures Names(Normalized(t)) == Names(t)
    ensures forall i :: 0 <= i < |t| && t[i].name !in WIND_DIR_COLUMNS ==> Normalized(t)[i] == t[i]
    ensures forall i, k :: 0 <= i < |t| && t[i].name in WIND_DIR_COLUMNS && 0 <= k < |t[i].cells| ==>
      Normalized(t)[i].dtype == t[i].dtype && Normalized(t)[i].cells[k] == NormalizeCell(t[i].cells[k])
    ensures Normalized(Normalized(t)) == Normalized(t)
  {
    var n := Normalized(t);
    assert Names(n) == Names(t);
    forall i | 0 <= i < |t| && t[i].name in WIND_DIR_COLUMNS
      ensures NormalizeColumn(n[i]) == n[i]
    {
      forall k | 0 <= k < |n[i].cells|
        ensures NormalizeCell(n[i].cells[k]) == n[i].cells[k]
      {
        NormalizeCellIdempotent(t[i].cells[k]);
      }
    }
  }

  /** Rewriting one more column: with unique labels, extending the list of
      rewritten columns by a label not yet in it rewrites just the column
      with that label, if there is one. */
  lemma NormalizeOnlyStep(t: Table, targets: seq<string>, n: string)
    requires Distinct(Names(t))
    requires n !in targets
    ensures n in Names(t) ==>
      NormalizeOnly(t, targets + [n]) == NormalizeOnly(t, targets)[IndexOf(t, n) := NormalizeColumn(t[IndexOf(t, n)])]
    ensures n !in Names(t) ==> NormalizeOnly(t, targets + [n]) == NormalizeOnly(t, targets)
  {
    if n in Names(t) {
      UniqueIndex(t, IndexOf(t, n));
    } else {
      forall i | 0 <= i < |t|
        ensures NormalizeOnly(t, targets + [n])[i] == NormalizeOnly(t, targets)[i]
      {
        assert Names(t)[i] != n;
      }
    }
  }
}
