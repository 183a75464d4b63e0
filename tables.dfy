/** The observation table the preprocessing pipeline reshapes: a pandas
    DataFrame seen as an ordered sequence of named, typed columns of equal
    length. */
module Tables {

  /** One cell: a number, a text value, a boolean (the indicator columns
      that one-hot encoding produces) or a missing value (NaN / None). */
  datatype Cell = Num(x: real) | Str(s: string) | Flag(on: bool) | Missing

  /** The pandas dtype of a column, as far as `select_dtypes` sees it:
      `number`, `object` (text) or `bool`. */
  datatype Dtype = Number | Object | Boolean

  datatype Column = Column(name: string, dtype: Dtype, cells: seq<Cell>)

  /** Columns in frame order; row identity is position only. */
  type Table = seq<Column>

  function Names(t: Table): seq<string>
  {
    seq(|t|, i requires 0 <= i < |t| => t[i].name)
  }

  predicate Distinct(ns: seq<string>)
  {
    forall i, j :: 0 <= i < j < |ns| ==> ns[i] != ns[j]
  }

  /** A frame with `rows` rows: column labels are unique and every column
      holds one cell per row. */
  predicate WellFormed(t: Table, rows: nat)
  {
    && Distinct(Names(t))
    && forall i :: 0 <= i < |t| ==> |t[i].cells| == rows
  }

  /** Position of the first column labelled `n`. */
  function IndexOf(t: Table, n: string): (i: nat)
    requires n in Names(t)
    ensures i < |t| && t[i].name == n
    ensures forall j :: 0 <= j < i ==> t[j].name != n
    decreases |t|
  {
    if t[0].name == n then 0
    else
      assert n in Names(t[1..]) by {
        var k :| 0 <= k < |t| && Names(t)[k] == n;
        assert Names(t[1..])[k - 1] == n;
      }
      1 + IndexOf(t[1..], n)
  }

  /** `data[n]`: the column labelled `n`. */
  function Lookup(t: Table, n: string): (c: Column)
    requires n in Names(t)
    ensures c in t && c.name == n
  {
    t[IndexOf(t, n)]
  }

  /** With unique labels, looking a column up by its own label finds it. */
  lemma LookupAt(t: Table, j: int)
    requires Distinct(Names(t))
    requires 0 <= j < |t|
    ensures t[j].name in Names(t) && Lookup(t, t[j].name) == t[j]
  {
    assert Names(t)[j] == t[j].name;
    var i := IndexOf(t, t[j].name);
    assert Names(t)[i] == t[i].name;
  }

  /** With unique labels, a label names one position only. */
  lemma UniqueIndex(t: Table, i: int)
    requires Distinct(Names(t))
    requires 0 <= i < |t|
    ensures forall j :: 0 <= j < |t| && t[j].name == t[i].name ==> j == i
  {
    forall j | 0 <= j < |t| && t[j].name == t[i].name
      ensures j == i
    {
      assert Names(t)[i] == t[i].name && Names(t)[j] == t[j].name;
    }
  }

  /** Dropping the first column keeps the labels unique and removes that
      column's label. */
  lemma DistinctTail(t: Table)
    requires Distinct(Names(t)) && t != []
    ensures Names(t) == [t[0].name] + Names(t[1..])
    ensures Distinct(Names(t[1..]))
    ensures t[0].name !in Names(t[1..])
  {
    var ns, rs := Names(t), Names(t[1..]);
    assert ns == [t[0].name] + rs;
    assert forall k :: 0 <= k < |rs| ==> rs[k] == ns[k + 1];
    forall k | 0 <= k < |rs|
      ensures rs[k] != t[0].name
    {
      assert ns[0] != ns[k + 1];
    }
  }

  /** The index of a label depends on the labels only. */
  lemma IndexOfByNames(t: Table, u: Table, n: string)
    requires Names(t) == Names(u)
    requires n in Names(t)
    ensures IndexOf(t, n) == IndexOf(u, n)
  {
    var i, k := IndexOf(t, n), IndexOf(u, n);
    assert |t| == |Names(t)| == |Names(u)| == |u|;
    assert Names(t)[i] == t[i].name == u[i].name;
    assert Names(u)[k] == u[k].name == t[k].name;
  }

  lemma DistinctConcat(a: seq<string>, b: seq<string>)
    requires Distinct(a) && Distinct(b)
    requires forall n :: n in a ==> n !in b
    ensures Distinct(a + b)
  {
    forall i, j | 0 <= i < j < |a + b|
      ensures (a + b)[i] != (a + b)[j]
    {
      if j < |a| {
      } else if i >= |a| {
        assert (a + b)[i] == b[i - |a|] && (a + b)[j] == b[j - |a|];
      } else {
        assert (a + b)[i] == a[i] && (a + b)[j] == b[j - |a|];
        assert a[i] in a;
      }
    }
  }

  lemma NamesConcat(a: Table, b: Table)
    ensures Names(a + b) == Names(a) + Names(b)
  {
  }
}
