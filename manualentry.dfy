/** Option 2 of the command-line entry point of docker/inferencia.py
    (line numbers in comments refer to that file): each answer typed for a schema
    column becomes a number when `val.replace('.', '', 1).isdigit()` holds,
    and stays text otherwise. Only ASCII digits are modelled. */
module ManualEntry {
  import opened Tables

  predicate IsDigit(c: char)
  {
    '0' <= c <= '9'
  }

  predicate AllDigits(s: string)
  {
    forall k :: 0 <= k < |s| ==> IsDigit(s[k])
  }

  /** `str.isdigit()`: non-empty and every character a digit. */
  predicate IsDigitString(s: string)
  {
    |s| > 0 && AllDigits(s)
  }

  /** Position of the first dot, or the length when there is none. */
  function FirstDot(s: string): (i: nat)
    ensures i <= |s|
    ensures forall k :: 0 <= k < i ==> s[k] != '.'
    ensures i < |s| ==> s[i] == '.'
    decreases |s|
  {
    if s == [] || s[0] == '.' then 0 else 1 + FirstDot(s[1..])
  }

  /** `s.replace('.', '', 1)`: the first dot, if any, is removed and nothing
      else changes. */
  function RemoveFirstDot(s: string): (r: string)
    ensures FirstDot(s) == |s| ==> r == s
    ensures FirstDot(s) < |s| ==> r == s[..FirstDot(s)] + s[FirstDot(s) + 1..]
    decreases |s|
  {
    if s == [] then []
    else if s[0] == '.' then s[1..]
    else
      var rest := RemoveFirstDot(s[1..]);
      var i := FirstDot(s[1..]);
      assert i < |s[1..]| ==> s[..i + 1] == [s[0]] + s[1..][..i] && s[i + 2..] == s[1..][i + 1..];
      assert i == |s[1..]| ==> s == [s[0]] + s[1..];
      [s[0]] + rest
  }

  function CountDots(s: string): nat
    decreases |s|
  {
    if s == [] then 0 else (if s[0] == '.' then 1 else 0) + CountDots(s[1..])
  }

  predicate DigitsAndDots(s: string)
  {
    forall k :: 0 <= k < |s| ==> IsDigit(s[k]) || s[k] == '.'
  }

  /** The reference reading of "a non-negative decimal": digits and at most
      one dot, with at least one digit somewhere. */
  predicate WellShaped(s: string)
  {
    && CountDots(s) <= 1
    && DigitsAndDots(s)
    && (exists k :: 0 <= k < |s| && IsDigit(s[k]))
  }

  /** The whole number a run of digits denotes. */
  function DigitsValue(s: string): nat
    decreases |s|
  {
    if s == [] then 0
    else 10 * DigitsValue(s[..|s| - 1]) + (if IsDigit(s[|s| - 1]) then (s[|s| - 1] - '0') as nat else 0)
  }

  function Pow10(n: nat): (p: nat)
    ensures p > 0
  {
    if n == 0 then 1 else 10 * Pow10(n - 1)
  }

  /** What a decimal text denotes: the digits before the first dot, plus
      the digits after it scaled down. */
  function DecimalValue(s: string): real
  {
    var i := FirstDot(s);
    if i == |s| then DigitsValue(s) as real
    else DigitsValue(s[..i]) as real + DigitsValue(s[i + 1..]) as real / Pow10(|s| - i - 1) as real
  }

  /** Line 104: the value stored for one typed answer. */
  function Coerce(val: string): Cell
  {
    if IsDigitString(RemoveFirstDot(val)) then Num(DecimalValue(val)) else Str(val)
  }

  /** Counting the dots of a text whose first dot is at `FirstDot(s)`: one
      there and those after it; none when there is no dot. */
  lemma {:induction false} DotsAfter(s: string)
    ensures FirstDot(s) == |s| ==> CountDots(s) == 0
    ensures FirstDot(s) < |s| ==> CountDots(s) == 1 + CountDots(s[FirstDot(s) + 1..])
    decreases |s|
  {
    if s != [] && s[0] != '.' {
      DotsAfter(s[1..]);
      assert FirstDot(s) < |s| ==> s[1..][FirstDot(s[1..]) + 1..] == s[FirstDot(s) + 1..];
    }
  }

  /** A text is all digits exactly when it has no dot and is made of digits
      and dots. */
  lemma {:induction false} NoDotsAllDigits(s: string)
    ensures AllDigits(s) <==> CountDots(s) == 0 && DigitsAndDots(s)
    decreases |s|
  {
    if s != [] {
      NoDotsAllDigits(s[1..]);
      assert forall k :: 1 <= k < |s| ==> s[k] == s[1..][k - 1];
    }
  }

  lemma AllDigitsConcat(a: string, b: string)
    ensures AllDigits(a + b) <==> AllDigits(a) && AllDigits(b)
  {
    assert forall k :: 0 <= k < |a| ==> (a + b)[k] == a[k];
    assert forall k :: 0 <= k < |b| ==> (a + b)[|a| + k] == b[k];
  }

  lemma SplitAtDot(s: string, i: int)
    requires 0 <= i < |s| && s[i] == '.'
    requires forall k :: 0 <= k < i ==> s[k] != '.'
    ensures AllDigits(s[..i] + s[i + 1..]) <==> AllDigits(s[..i]) && AllDigits(s[i + 1..])
    ensures AllDigits(s[..i]) <==> DigitsAndDots(s[..i])
    ensures DigitsAndDots(s) <==> DigitsAndDots(s[..i]) && DigitsAndDots(s[i + 1..])
  {
    var a, b := s[..i], s[i + 1..];
    AllDigitsConcat(a, b);
    assert forall k :: 0 <= k < |b| ==> b[k] == s[i + 1 + k];
    if DigitsAndDots(a) && DigitsAndDots(b) {
      forall k | 0 <= k < |s|
        ensures IsDigit(s[k]) || s[k] == '.'
      {
        if k > i {
          assert s[k] == b[k - i - 1];
        }
      }
    }
  }

  /** Removing the first dot leaves only digits exactly when there was at
      most one dot and every other character is a digit. */
  lemma AllDigitsAfterRemoval(s: string)
    ensures AllDigits(RemoveFirstDot(s)) <==> CountDots(s) <= 1 && DigitsAndDots(s)
  {
    var i := FirstDot(s);
    DotsAfter(s);
    if i == |s| {
      NoDotsAllDigits(s);
    } else {
      SplitAtDot(s, i);
      NoDotsAllDigits(s[i + 1..]);
    }
  }

  /** When removing the first dot leaves only digits, it leaves something
      exactly when the text holds a digit. */
  lemma RemovalNonEmpty(s: string)
    requires AllDigits(RemoveFirstDot(s))
    ensures |RemoveFirstDot(s)| > 0 <==> exists k :: 0 <= k < |s| && IsDigit(s[k])
  {
    var r := RemoveFirstDot(s);
    var i := FirstDot(s);
    if i < |s| {
      if |r| > 0 {
        if i > 0 {
          assert r[0] == s[0];
        } else {
          assert r[0] == s[1];
        }
      }
      if exists k :: 0 <= k < |s| && IsDigit(s[k]) {
        var k :| 0 <= k < |s| && IsDigit(s[k]);
        assert k != i;
        assert |r| == |s| - 1 >= 1;
      }
    } else {
      if |r| > 0 {
        assert IsDigit(s[0]);
      }
    }
  }

  /** The typed answer is stored as a number exactly when it is a
      non-negative decimal: digits with at most one dot and at least one
      digit. So a sign, a second dot, an empty answer or a lone dot keep it
      as text. */
  lemma CoerceNumeric(s: string)
    ensures Coerce(s).Num? <==> WellShaped(s)
    ensures !WellShaped(s) ==> Coerce(s) == Str(s)
  {
    AllDigitsAfterRemoval(s);
    if AllDigits(RemoveFirstDot(s)) {
      RemovalNonEmpty(s);
    }
  }

  /** An empty answer, a sign, a second dot or a lone dot keep the answer
      as text. */
  lemma CoerceTextExamples()
    ensures Coerce("") == Str("")
    ensures Coerce("-3") == Str("-3")
    ensures Coerce("1.2.3") == Str("1.2.3")
    ensures Coerce(".") == Str(".")
  {
    CoerceNumeric("-3");
    assert "-3"[0] == '-';
    CoerceNumeric("1.2.3");
    assert CountDots("1.2.3") == 2;
    CoerceNumeric(".");
    assert "."[0] == '.';
  }

  /** Whole numbers and numbers with a dot, leading or trailing included. */
  lemma CoerceNumberExamples()
    ensures Coerce("3") == Num(3.0)
    ensures Coerce("2.5") == Num(2.5)
    ensures Coerce("12.") == Num(12.0)
    ensures Coerce(".5") == Num(0.5)
  {
    assert FirstDot("2.5") == 1;
    assert RemoveFirstDot("2.5") == "25";
    assert FirstDot("12.") == 2;
    assert RemoveFirstDot("12.") == "12";
    assert FirstDot(".5") == 0;
    assert RemoveFirstDot(".5") == "5";
  }

  /** The decimal rendering of a whole number. */
  function Render(n: nat): (s: string)
    ensures IsDigitString(s)
    ensures '.' !in s
  {
    var d := ['0' + (n % 10) as char];
    if n < 10 then d else Render(n / 10) + d
  }

  lemma {:induction false} RenderValue(n: nat)
    ensures DigitsValue(Render(n)) == n
  {
    var s := Render(n);
    assert s[..|s| - 1] == if n < 10 then [] else Render(n / 10);
    if n >= 10 {
      RenderValue(n / 10);
    }
  }

  /** Typing a whole number gives that number. */
  lemma CoerceRender(n: nat)
    ensures Coerce(Render(n)) == Num(n as real)
  {
    var s := Render(n);
    RenderValue(n);
    assert FirstDot(s) == |s|;
  }

  /** `pd.DataFrame([user_data])`: one row, one column per schema label, a
      number column for a numeric answer and a text column otherwise. */
  function ManualFrame(schema: seq<string>, answers: seq<string>): Table
    requires |answers| == |schema|
  {
    seq(|schema|, j requires 0 <= j < |schema| =>
      var c := Coerce(answers[j]);
      Column(schema[j], if c.Num? then Number else Object, [c]))
  }

  /** The typed frame has one row, the schema's labels, and each answer's
      cell. */
  lemma ManualFrameShape(schema: seq<string>, answers: seq<string>)
    requires |answers| == |schema|
    requires Distinct(schema)
    ensures WellFormed(ManualFrame(schema, answers), 1)
    ensures Names(ManualFrame(schema, answers)) == schema
    ensures forall j :: 0 <= j < |schema| ==>
      && (ManualFrame(schema, answers)[j].dtype == Number <==> WellShaped(answers[j]))
      && (!WellShaped(answers[j]) ==> ManualFrame(schema, answers)[j].cells == [Str(answers[j])])
  {
    var f := ManualFrame(schema, answers);
    assert Names(f) == schema;
    forall j | 0 <= j < |schema|
      ensures f[j].dtype == Number <==> WellShaped(answers[j])
    {
      CoerceNumeric(answers[j]);
    }
    forall j | 0 <= j < |schema| && !WellShaped(answers[j])
      ensures f[j].cells == [Str(answers[j])]
    {
      CoerceNumeric(answers[j]);
    }
  }
}
