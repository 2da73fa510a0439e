/** The output record of one image (lines 149-152): one `x,y,radius` line per circle, in list
    order. `x` and `y` are written as Python writes integers; the text of the float radius is
    abstract (`showRadius` maps the squared radius to it). A reader for the format is used to
    prove the round trip. */
module Record {
  import opened CustomTypes
  import opened Optional

  predicate IsDigit(c: char) {
    '0' <= c <= '9'
  }

  predicate AllDigits(s: string) {
    forall i :: 0 <= i < |s| ==> IsDigit(s[i])
  }

  function DigitChar(d: nat): (c: char)
    requires d < 10
    ensures IsDigit(c) && (c as int) - ('0' as int) == d
  {
    ((d + '0' as int) as char)
  }

  /** The decimal digits of `n`, most significant first, without leading zeros. */
  function NatToDecimal(n: nat): (s: string)
    ensures |s| > 0 && AllDigits(s)
    ensures |s| > 1 ==> s[0] != '0'
  {
    if n < 10 then [DigitChar(n)] else NatToDecimal(n / 10) + [DigitChar(n % 10)]
  }

  /** `str(i)` for a Python integer: a minus sign for negatives, then the digits. */
  function IntToDecimal(i: int): (s: string)
    ensures |s| > 0 && (s[0] == '-' <==> i < 0)
    ensures i < 0 ==> |s| > 1 && s[1] != '0'
    ensures i >= 0 && |s| > 1 ==> s[0] != '0'
    ensures forall k :: 0 <= k < |s| ==> s[k] != ',' && s[k] != '\n'
  {
    if i < 0 then "-" + NatToDecimal(-i) else NatToDecimal(i)
  }

  /** The value of a string of decimal digits. */
  function ParseNat(s: string): nat
    requires AllDigits(s)
  {
    if s == [] then 0 else ParseNat(s[..|s| - 1]) * 10 + ((s[|s| - 1] as int) - ('0' as int))
  }

  /** The value of an optionally negative decimal integer. */
  function ParseInt(s: string): Option<int>
  {
    if |s| > 1 && s[0] == '-' && AllDigits(s[1..]) then Some(0 - ParseNat(s[1..]) as int)
    else if |s| > 0 && AllDigits(s) then Some(ParseNat(s))
    else None
  }

  lemma {:induction false} NatRoundTrip(n: nat)
    ensures ParseNat(NatToDecimal(n)) == n
  {
    if n >= 10 {
      var s := NatToDecimal(n);
      NatRoundTrip(n / 10);
      assert s[..|s| - 1] == NatToDecimal(n / 10);
    }
  }

  /** Reading back a written integer gives the integer. */
  lemma IntRoundTrip(i: int)
    ensures ParseInt(IntToDecimal(i)) == Some(i)
  {
    if i < 0 {
      NatRoundTrip(-i);
      assert IntToDecimal(i)[1..] == NatToDecimal(-i);
    } else {
      NatRoundTrip(i);
    }
  }

  /** Lines 151-152: the line written for one circle. */
  function FormatLine(c: Circle, showRadius: nat -> string): string
  {
    IntToDecimal(c.center.x) + "," + IntToDecimal(c.center.y) + "," + showRadius(c.radiusSq) + "\n"
  }

  /** The text of the record for a list of circles. */
  function RecordText(circles: seq<Circle>, showRadius: nat -> string): string
  {
    if circles == [] then [] else FormatLine(circles[0], showRadius) + RecordText(circles[1..], showRadius)
  }

  lemma {:induction false} RecordTextAppend(circles: seq<Circle>, c: Circle, showRadius: nat -> string)
    ensures RecordText(circles + [c], showRadius) == RecordText(circles, showRadius) + FormatLine(c, showRadius)
  {
    if circles == [] {
      assert [c][1..] == [];
    } else {
      assert (circles + [c])[1..] == circles[1..] + [c];
      RecordTextAppend(circles[1..], c, showRadius);
    }
  }

  lemma RecordTextStep(circles: seq<Circle>, i: nat, showRadius: nat -> string)
    requires i < |circles|
    ensures RecordText(circles[..i + 1], showRadius) == RecordText(circles[..i], showRadius) + FormatLine(circles[i], showRadius)
  {
    assert circles[..i + 1] == circles[..i] + [circles[i]];
    RecordTextAppend(circles[..i], circles[i], showRadius);
  }

  /** Lines 149-152: the record written one circle at a time. */
  method WriteRecord(circles: seq<Circle>, showRadius: nat -> string) returns (text: string)
    ensures text == RecordText(circles, showRadius)
  {
    text := [];
    for i := 0 to |circles|
      invariant text == RecordText(circles[..i], showRadius)
    {
      var c := circles[i];
      var coords := IntToDecimal(c.center.x) + "," + IntToDecimal(c.center.y) + ",";
      var radius := showRadius(c.radiusSq) + "\n";
      assert coords + radius == FormatLine(c, showRadius);
      RecordTextStep(circles, i, showRadius);
      text := text + coords;
      text := text + radius;
    }
    assert circles[..|circles|] == circles;
  }

  /** One line as a reader sees it: two integers and the radius text. */
  datatype Line = Line(x: int, y: int, radius: string)

  /** The part before the first `c` and the part after it, if `c` occurs. */
  function SplitAt(s: string, c: char): (r: Option<(string, string)>)
    ensures r.Some? ==> s == r.value.0 + [c] + r.value.1 && forall k :: 0 <= k < |r.value.0| ==> r.value.0[k] != c
    ensures r.None? ==> forall k :: 0 <= k < |s| ==> s[k] != c
  {
    if s == [] then None
    else if s[0] == c then Some(([], s[1..]))
    else
      match SplitAt(s[1..], c)
      case None => None
      case Some(parts) => Some(([s[0]] + parts.0, parts.1))
  }

  lemma {:induction false} SplitAtFirst(a: string, c: char, b: string)
    requires forall k :: 0 <= k < |a| ==> a[k] != c
    ensures SplitAt(a + [c] + b, c) == Some((a, b))
  {
    if a == [] {
      assert a + [c] + b == [c] + b;
    } else {
      assert (a + [c] + b)[1..] == a[1..] + [c] + b;
      SplitAtFirst(a[1..], c, b);
      assert [a[0]] + a[1..] == a;
    }
  }

  /** A line (without its newline) read as `x,y,radius`; the radius is everything after the
      second comma. */
  function ParseLine(line: string): Option<Line>
  {
    match SplitAt(line, ',')
    case None => None
    case Some(p1) =>
      match SplitAt(p1.1, ',')
      case None => None
      case Some(p2) =>
        match (ParseInt(p1.0), ParseInt(p2.0))
        case (Some(x), Some(y)) => Some(Line(x, y, p2.1))
        case _ => None
  }

  /** A whole record read line by line; text after the last newline is malformed. */
  function ParseRecord(s: string): Option<seq<Line>>
    decreases |s|
  {
    if s == [] then Some([])
    else
      match SplitAt(s, '\n')
      case None => None
      case Some(parts) =>
        match (ParseLine(parts.0), ParseRecord(parts.1))
        case (Some(l), Some(ls)) => Some([l] + ls)
        case _ => None
  }

  /** What the record of `circles` holds, line by line. */
  function LinesOf(circles: seq<Circle>, showRadius: nat -> string): (r: seq<Line>)
    ensures |r| == |circles|
  {
    if circles == [] then []
    else [Line(circles[0].center.x, circles[0].center.y, showRadius(circles[0].radiusSq))] + LinesOf(circles[1..], showRadius)
  }

  /** One written line, without its newline, reads back as the circle's center and radius text. */
  lemma ParseFormattedLine(c: Circle, rs: string)
    ensures ParseLine(IntToDecimal(c.center.x) + "," + IntToDecimal(c.center.y) + "," + rs) ==
            Some(Line(c.center.x, c.center.y, rs))
  {
    var xs, ys := IntToDecimal(c.center.x), IntToDecimal(c.center.y);
    var line := xs + "," + ys + "," + rs;
    assert line == xs + [','] + (ys + "," + rs);
    SplitAtFirst(xs, ',', ys + "," + rs);
    assert ys + "," + rs == ys + [','] + rs;
    SplitAtFirst(ys, ',', rs);
    IntRoundTrip(c.center.x);
    IntRoundTrip(c.center.y);
  }

  /** A written line has its only newline at the end. */
  lemma FormatLineShape(c: Circle, showRadius: nat -> string)
    requires forall k :: 0 <= k < |showRadius(c.radiusSq)| ==> showRadius(c.radiusSq)[k] != '\n'
    ensures var line := IntToDecimal(c.center.x) + "," + IntToDecimal(c.center.y) + "," + showRadius(c.radiusSq);
      FormatLine(c, showRadius) == line + ['\n'] && forall k :: 0 <= k < |line| ==> line[k] != '\n'
  {
    var xs, ys, rs := IntToDecimal(c.center.x), IntToDecimal(c.center.y), showRadius(c.radiusSq);
    var line := xs + "," + ys + "," + rs;
    forall k | 0 <= k < |line| ensures line[k] != '\n' {
      if k < |xs| { assert line[k] == xs[k]; }
      else if k == |xs| { }
      else if k < |xs| + 1 + |ys| { assert line[k] == ys[k - |xs| - 1]; }
      else if k == |xs| + 1 + |ys| { }
      else { assert line[k] == rs[k - |xs| - |ys| - 2]; }
    }
  }

  /** The lines of the record are the circles, in list order, each with its center and its
      radius text; this holds as long as the radius text has no newline, as a float's never does. */
  lemma {:induction false} RecordRoundTrip(circles: seq<Circle>, showRadius: nat -> string)
    requires forall n :: forall k :: 0 <= k < |showRadius(n)| ==> showRadius(n)[k] != '\n'
    ensures ParseRecord(RecordText(circles, showRadius)) == Some(LinesOf(circles, showRadius))
  {
    if circles != [] {
      var c := circles[0];
      var rs := showRadius(c.radiusSq);
      var line := IntToDecimal(c.center.x) + "," + IntToDecimal(c.center.y) + "," + rs;
      var rest := RecordText(circles[1..], showRadius);
      FormatLineShape(c, showRadius);
      assert RecordText(circles, showRadius) == line + ['\n'] + rest;
      SplitAtFirst(line, '\n', rest);
      ParseFormattedLine(c, rs);
      RecordRoundTrip(circles[1..], showRadius);
    }
  }

  /** Two circles give two lines: "10,10,5.0" and "50,60,13.0" when their radii read so. */
  lemma RecordExample(showRadius: nat -> string)
    requires showRadius(25) == "5.0" && showRadius(169) == "13.0"
    ensures RecordText([Circle(Point(10, 10), 25), Circle(Point(50, 60), 169)], showRadius)
            == "10,10,5.0\n50,60,13.0\n"
  {
    var cs := [Circle(Point(10, 10), 25), Circle(Point(50, 60), 169)];
    assert NatToDecimal(10) == "10";
    assert NatToDecimal(50) == "50";
    assert NatToDecimal(60) == "60";
    assert cs[1..][1..] == [];
  }
}
