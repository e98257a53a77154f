/**
  The line format of the network structure file. Saving writes a header,
  one "from to pipeId" line per edge in the graph's iteration order and a
  closing marker; loading scans the lines, skipping the header, starting
  at the "Connections:" marker and stopping at "EndConnections", and reads
  each connection line with three `%d` conversions. Integers are written
  in decimal with a leading '-' for negatives, as the stream operator does.
 */
module NetworkFiles {
  import opened Wrappers
  import opened Graphs

  const Header := "GasNetworkData"
  const VersionLine := "Version:1.0"
  const Begin := "Connections:"
  const End := "EndConnections"

  // ----- Decimal integers -----

  predicate IsDigit(c: char) {
    '0' <= c <= '9'
  }

  /** White space as the C locale classifies it. */
  predicate IsSpace(c: char) {
    c == ' ' || c == '\t' || c == '\n' || c == '\r' || c == '\U{B}' || c == '\U{C}'
  }

  predicate AllDigits(s: string) {
    forall i :: 0 <= i < |s| ==> IsDigit(s[i])
  }

  function DigitValue(c: char): (d: nat)
    requires IsDigit(c)
    ensures d < 10
  {
    c as int - '0' as int
  }

  function DigitChar(d: nat): char
    requires d < 10
  {
    (d + '0' as int) as char
  }

  lemma DigitCharValue(d: nat)
    requires d < 10
    ensures IsDigit(DigitChar(d)) && DigitValue(DigitChar(d)) == d
  {
  }

  /** The number a run of decimal digits denotes. */
  function ValueOf(ds: string): nat
    requires AllDigits(ds)
  {
    if ds == [] then 0 else 10 * ValueOf(ds[..|ds| - 1]) + DigitValue(ds[|ds| - 1])
  }

  /** An int as the output stream writes it: a '-' for a negative
      number, then the decimal digits without leading zeros. */
  function IntToString(n: int): string
    decreases if n < 0 then 1 - n else n
  {
    if n < 0 then "-" + IntToString(-n)
    else if n < 10 then [DigitChar(n)]
    else IntToString(n / 10) + [DigitChar(n % 10)]
  }

  /** A natural number is written as digits that denote it. */
  lemma {:induction false} NatToStringValue(n: nat)
    ensures IntToString(n) != [] && AllDigits(IntToString(n))
    ensures ValueOf(IntToString(n)) == n
  {
    if n < 10 {
      DigitCharValue(n);
    } else {
      DigitCharValue(n % 10);
      NatToStringValue(n / 10);
      var s := IntToString(n);
      assert s[..|s| - 1] == IntToString(n / 10);
    }
  }

  // ----- The %d conversion -----

  function SkipSpaces(s: string): (r: string)
    ensures r == [] || !IsSpace(r[0])
    ensures |r| <= |s| && r == s[|s| - |r|..]
    ensures forall i :: 0 <= i < |s| - |r| ==> IsSpace(s[i])
  {
    if s != [] && IsSpace(s[0]) then SkipSpaces(s[1..]) else s
  }

  /** The length of the run of digits that starts `s`. */
  function DigitRun(s: string): (n: nat)
    ensures n <= |s| && AllDigits(s[..n])
    ensures n < |s| ==> !IsDigit(s[n])
  {
    if s != [] && IsDigit(s[0]) then
      var n := 1 + DigitRun(s[1..]);
      assert s[..n] == [s[0]] + s[1..][..n - 1];
      n
    else 0
  }

  /** The longest run of digits that starts `u`, as a number, and the
      rest of `u`; None when `u` does not start with a digit. */
  function ScanDigits(u: string): Option<(int, string)> {
    var n := DigitRun(u);
    if n == 0 then None else Some((ValueOf(u[..n]), u[n..]))
  }

  /** A number with an optional sign, at the start of `t`. */
  function ScanSigned(t: string): Option<(int, string)> {
    if t != [] && t[0] == '-' then
      match ScanDigits(t[1..])
      case None => None
      case Some((v, rest)) => Some((-v, rest))
    else if t != [] && t[0] == '+' then ScanDigits(t[1..])
    else ScanDigits(t)
  }

  /** One `%d` conversion: leading white space, an optional sign and the
      longest run of digits, which must not be empty. The value and the
      unread rest of the input, or None when the conversion fails. */
  function ScanInt(s: string): Option<(int, string)> {
    ScanSigned(SkipSpaces(s))
  }

  /** `k` successive `%d` conversions from the start of `s`: the values
      and the unread rest, or None as soon as one of them fails. */
  function ScanInts(s: string, k: nat): (r: Option<(seq<int>, string)>)
    ensures r.Some? ==> |r.value.0| == k
  {
    if k == 0 then Some(([], s))
    else
      match ScanInt(s)
      case None => None
      case Some((v, rest)) =>
        match ScanInts(rest, k - 1)
        case None => None
        case Some((vs, rest')) => Some(([v] + vs, rest'))
  }

  /** The three conversions of a connection line; a line on which fewer
      than three succeed is not a connection. */
  function ParseConnection(line: string): Option<Connection> {
    match ScanInts(line, 3)
    case None => None
    case Some((vs, _)) => Some(Connection(vs[0], vs[1], vs[2]))
  }

  // ----- Writing -----

  function ConnectionLine(c: Connection): string {
    IntToString(c.from) + " " + IntToString(c.to) + " " + IntToString(c.pipeId)
  }

  function ConnectionLines(cs: seq<Connection>): seq<string> {
    seq(|cs|, i requires 0 <= i < |cs| => ConnectionLine(cs[i]))
  }

  /** The whole file for the connections `cs`. */
  function Format(cs: seq<Connection>): (lines: seq<string>)
    ensures |lines| == |cs| + 4
    ensures lines[..3] == [Header, VersionLine, Begin] && lines[|lines| - 1] == End
  {
    [Header, VersionLine, Begin] + ConnectionLines(cs) + [End]
  }

  lemma ConnectionLinesSnoc(cs: seq<Connection>, k: nat)
    requires k < |cs|
    ensures ConnectionLines(cs[..k + 1]) == ConnectionLines(cs[..k]) + [ConnectionLine(cs[k])]
  {
  }

  /** The writing loop of the save operation. */
  method WriteLines(cs: seq<Connection>) returns (lines: seq<string>)
    ensures lines == Format(cs)
  {
    lines := [Header, VersionLine, Begin];
    for k := 0 to |cs|
      invariant lines == [Header, VersionLine, Begin] + ConnectionLines(cs[..k])
    {
      ConnectionLinesSnoc(cs, k);
      lines := lines + [ConnectionLine(cs[k])];
    }
    assert cs[..|cs|] == cs;
    lines := lines + [End];
  }

  // ----- Reading -----

  /** What the loader makes of one line, testing for the header, the
      opening and the closing marker, and otherwise converting it. */
  datatype LineKind = HeaderLine | BeginLine | EndLine | DataLine(parsed: Option<Connection>)

  function Classify(line: string): (k: LineKind)
    ensures k == HeaderLine <==> line == Header
    ensures k == BeginLine <==> line == Begin
    ensures k == EndLine <==> line == End
  {
    if line == Header then HeaderLine
    else if line == Begin then BeginLine
    else if line == End then EndLine
    else DataLine(ParseConnection(line))
  }

  function Kinds(lines: seq<string>): (ks: seq<LineKind>)
    ensures |ks| == |lines|
  {
    seq(|lines|, i requires 0 <= i < |lines| => Classify(lines[i]))
  }

  /** The connections the loader acts on, in order, from the classified
      lines `ks` onwards, when `reading` says whether the "Connections:"
      marker was seen. */
  function ScanKinds(ks: seq<LineKind>, reading: bool): seq<Connection> {
    if ks == [] then []
    else match ks[0]
      case HeaderLine => ScanKinds(ks[1..], reading)
      case BeginLine => ScanKinds(ks[1..], true)
      case EndLine => []
      case DataLine(p) =>
        if reading && p.Some? then [p.value] + ScanKinds(ks[1..], reading)
        else ScanKinds(ks[1..], reading)
  }

  function Scan(lines: seq<string>, reading: bool): seq<Connection> {
    ScanKinds(Kinds(lines), reading)
  }

  /** The connections of a whole file. */
  function ReadConnections(lines: seq<string>): seq<Connection> {
    Scan(lines, false)
  }

  // ----- Round trip -----

  lemma {:induction false} ValueOfDigits(ds: string, rest: string)
    requires AllDigits(ds)
    requires rest == [] || !IsDigit(rest[0])
    ensures DigitRun(ds + rest) == |ds|
  {
    if ds != [] {
      assert (ds + rest)[1..] == ds[1..] + rest;
      ValueOfDigits(ds[1..], rest);
    } else {
      assert ds + rest == rest;
    }
  }

  lemma DigitsRoundTrip(ds: string, rest: string)
    requires ds != [] && AllDigits(ds)
    requires rest == [] || !IsDigit(rest[0])
    ensures ScanDigits(ds + rest) == Some((ValueOf(ds), rest))
  {
    ValueOfDigits(ds, rest);
    assert (ds + rest)[..|ds|] == ds && (ds + rest)[|ds|..] == rest;
  }

  lemma NegativeScan(ds: string, rest: string, v: int)
    requires ScanDigits(ds + rest) == Some((v, rest))
    ensures ScanSigned("-" + ds + rest) == Some((-v, rest))
  {
    assert ("-" + ds + rest)[1..] == ds + rest;
  }

  lemma UnsignedScan(ds: string, rest: string)
    requires ds != [] && IsDigit(ds[0])
    ensures ScanSigned(ds + rest) == ScanDigits(ds + rest)
  {
    assert (ds + rest)[0] == ds[0];
  }

  lemma SignedRoundTrip(n: int, rest: string)
    requires rest == [] || !IsDigit(rest[0])
    ensures ScanSigned(IntToString(n) + rest) == Some((n, rest))
  {
    var m: nat := if n < 0 then -n else n;
    var ds := IntToString(m);
    NatToStringValue(m);
    DigitsRoundTrip(ds, rest);
    if n < 0 {
      NegativeScan(ds, rest, m);
    } else {
      UnsignedScan(ds, rest);
    }
  }

  /** A %d conversion reads back what the stream wrote, after any white
      space and up to the first non-digit. */
  lemma IntRoundTrip(spaces: string, n: int, rest: string)
    requires forall i :: 0 <= i < |spaces| ==> IsSpace(spaces[i])
    requires rest == [] || !IsDigit(rest[0])
    ensures ScanInt(spaces + IntToString(n) + rest) == Some((n, rest))
  {
    var s := IntToString(n);
    if n < 0 {
      NatToStringValue(-n);
    } else {
      NatToStringValue(n);
    }
    assert spaces + s + rest == spaces + (s + rest);
    SkipLeading(spaces, s + rest);
    SignedRoundTrip(n, rest);
  }

  lemma {:induction false} SkipLeading(spaces: string, s: string)
    requires forall i :: 0 <= i < |spaces| ==> IsSpace(spaces[i])
    requires s != [] && !IsSpace(s[0])
    ensures SkipSpaces(spaces + s) == s
  {
    if spaces == [] {
      assert spaces + s == s;
    } else {
      assert (spaces + s)[1..] == spaces[1..] + s;
      SkipLeading(spaces[1..], s);
    }
  }

  lemma ThreeConversions(line: string, rest1: string, rest2: string, rest3: string, c: Connection)
    requires ScanInt(line) == Some((c.from, rest1))
    requires ScanInt(rest1) == Some((c.to, rest2))
    requires ScanInt(rest2) == Some((c.pipeId, rest3))
    ensures ParseConnection(line) == Some(c)
  {
    assert ScanInts(rest3, 0) == Some(([], rest3));
    var vs := [c.pipeId] + [];
    assert ScanInts(rest2, 1) == Some((vs, rest3));
    vs := [c.to] + vs;
    assert ScanInts(rest1, 2) == Some((vs, rest3));
    vs := [c.from] + vs;
    assert ScanInts(line, 3) == Some((vs, rest3));
  }

  /** Every written line reads back as the connection it was written from. */
  lemma LineRoundTrip(c: Connection)
    ensures ParseConnection(ConnectionLine(c)) == Some(c)
  {
    var a, b, p := IntToString(c.from), IntToString(c.to), IntToString(c.pipeId);
    var rest2 := " " + p;
    var rest1 := " " + b + rest2;
    assert ConnectionLine(c) == [] + a + rest1;
    IntRoundTrip([], c.from, rest1);
    IntRoundTrip(" ", c.to, rest2);
    assert rest2 == " " + p + [];
    IntRoundTrip(" ", c.pipeId, []);
    ThreeConversions(ConnectionLine(c), rest1, rest2, [], c);
  }

  /** A written line starts with a sign or a digit, so it is never taken
      for one of the markers. */
  lemma LineIsNotMarker(c: Connection)
    ensures ConnectionLine(c) !in {Header, Begin, End}
  {
    var line := ConnectionLine(c);
    if c.from < 0 {
      NatToStringValue(-c.from);
    } else {
      NatToStringValue(c.from);
    }
    assert line[0] == IntToString(c.from)[0];
    assert line[0] == '-' || IsDigit(line[0]);
    assert Header[0] == 'G' && Begin[0] == 'C' && End[0] == 'E';
  }

  /** A written line is classified as the connection it was written from. */
  lemma WrittenLineKind(c: Connection)
    ensures Classify(ConnectionLine(c)) == DataLine(Some(c))
  {
    LineRoundTrip(c);
    LineIsNotMarker(c);
  }

  /** Inside the connection block, lines classified as connections and
      then the closing marker read as those connections. */
  lemma {:induction false} ScanBlock(ks: seq<LineKind>, cs: seq<Connection>)
    requires |ks| == |cs| + 1 && ks[|cs|] == EndLine
    requires forall i :: 0 <= i < |cs| ==> ks[i] == DataLine(Some(cs[i]))
    ensures ScanKinds(ks, true) == cs
  {
    if cs != [] {
      ScanBlock(ks[1..], cs[1..]);
      assert [cs[0]] + cs[1..] == cs;
    }
  }

  /** The classified lines of a saved file: the header, the version line,
      the opening marker, one connection per written line, the closing
      marker. */
  lemma FormatKinds(cs: seq<Connection>)
    ensures |Kinds(Format(cs))| == |cs| + 4
    ensures Kinds(Format(cs))[0] == HeaderLine && Kinds(Format(cs))[1].DataLine?
    ensures Kinds(Format(cs))[2] == BeginLine && Kinds(Format(cs))[|cs| + 3] == EndLine
    ensures forall i :: 0 <= i < |cs| ==> Kinds(Format(cs))[i + 3] == DataLine(Some(cs[i]))
  {
    FormatLines(cs);
    ShapeKinds(Format(cs), cs);
  }

  lemma FormatLines(cs: seq<Connection>)
    ensures var lines := Format(cs);
      lines[0] == Header && lines[1] == VersionLine && lines[2] == Begin && lines[|cs| + 3] == End &&
      forall i :: 0 <= i < |cs| ==> lines[i + 3] == ConnectionLine(cs[i])
  {
  }

  lemma ShapeKinds(lines: seq<string>, cs: seq<Connection>)
    requires |lines| == |cs| + 4
    requires lines[0] == Header && lines[1] == VersionLine && lines[2] == Begin && lines[|cs| + 3] == End
    requires forall i :: 0 <= i < |cs| ==> lines[i + 3] == ConnectionLine(cs[i])
    ensures Kinds(lines)[0] == HeaderLine && Kinds(lines)[1].DataLine?
    ensures Kinds(lines)[2] == BeginLine && Kinds(lines)[|cs| + 3] == EndLine
    ensures forall i :: 0 <= i < |cs| ==> Kinds(lines)[i + 3] == DataLine(Some(cs[i]))
  {
    forall i | 0 <= i < |cs|
      ensures Kinds(lines)[i + 3] == DataLine(Some(cs[i]))
    {
      WrittenKind(lines, i + 3, cs[i]);
    }
    VersionKind(lines);
  }

  lemma VersionKind(lines: seq<string>)
    requires |lines| > 1 && lines[1] == VersionLine
    ensures Kinds(lines)[1].DataLine?
  {
    assert VersionLine != Header && VersionLine != Begin && VersionLine != End;
  }

  lemma WrittenKind(lines: seq<string>, k: nat, c: Connection)
    requires k < |lines| && lines[k] == ConnectionLine(c)
    ensures Kinds(lines)[k] == DataLine(Some(c))
  {
    WrittenLineKind(c);
  }

  /** Lines classified as a saved file's read as its connections. */
  lemma ReadKinds(ks: seq<LineKind>, cs: seq<Connection>)
    requires |ks| == |cs| + 4
    requires ks[0] == HeaderLine && ks[1].DataLine? && ks[2] == BeginLine && ks[|cs| + 3] == EndLine
    requires forall i :: 0 <= i < |cs| ==> ks[i + 3] == DataLine(Some(cs[i]))
    ensures ScanKinds(ks, false) == cs
  {
    ScanBlock(ks[3..], cs);
    assert ks[1..][1..] == ks[2..] && ks[2..][1..] == ks[3..];
    assert ScanKinds(ks[2..], false) == ScanKinds(ks[3..], true);
    assert ScanKinds(ks[1..], false) == ScanKinds(ks[2..], false);
  }

  /** Reading a saved file gives back exactly the connections that were
      saved, in the same order. */
  lemma FormatThenRead(cs: seq<Connection>)
    ensures ReadConnections(Format(cs)) == cs
  {
    FormatKinds(cs);
    ReadKinds(Kinds(Format(cs)), cs);
  }

  /** Classifying lines commutes with joining them. */
  lemma KindsAppend(a: seq<string>, b: seq<string>)
    ensures Kinds(a + b) == Kinds(a) + Kinds(b)
  {
  }

  /** What reading line `i` does to the rest of the reading. */
  lemma ScanNext(lines: seq<string>, i: int, reading: bool)
    requires 0 <= i < |lines|
    ensures lines[i] == Header ==> Scan(lines[i..], reading) == Scan(lines[i + 1..], reading)
    ensures lines[i] == Begin ==> Scan(lines[i..], reading) == Scan(lines[i + 1..], true)
    ensures lines[i] == End ==> Scan(lines[i..], reading) == []
    ensures lines[i] !in {Header, Begin, End} && reading && ParseConnection(lines[i]).Some? ==>
              Scan(lines[i..], reading) == [ParseConnection(lines[i]).value] + Scan(lines[i + 1..], reading)
    ensures lines[i] !in {Header, Begin, End} && !(reading && ParseConnection(lines[i]).Some?) ==>
              Scan(lines[i..], reading) == Scan(lines[i + 1..], reading)
  {
    assert lines[i..] == [lines[i]] + lines[i + 1..];
    KindsAppend([lines[i]], lines[i + 1..]);
    var ks := Kinds(lines[i..]);
    assert ks[0] == Classify(lines[i]);
    assert ks[1..] == Kinds(lines[i + 1..]);
  }

  lemma {:induction false} KindsStopAtEnd(ks: seq<LineKind>, rest: seq<LineKind>, reading: bool)
    requires EndLine !in ks
    ensures ScanKinds(ks + [EndLine] + rest, reading) == ScanKinds(ks + [EndLine], reading)
  {
    if ks == [] {
      assert ([EndLine] + rest)[0] == EndLine;
    } else {
      assert (ks + [EndLine] + rest)[1..] == ks[1..] + [EndLine] + rest;
      assert (ks + [EndLine])[1..] == ks[1..] + [EndLine];
      KindsStopAtEnd(ks[1..], rest, true);
      KindsStopAtEnd(ks[1..], rest, reading);
    }
  }

  /** Everything after the closing marker is ignored. */
  lemma ReadStopsAtEnd(before: seq<string>, after: seq<string>, reading: bool)
    requires End !in before
    ensures Scan(before + [End] + after, reading) == Scan(before + [End], reading)
  {
    KindsAppend(before + [End], after);
    KindsAppend(before, [End]);
    assert Kinds([End]) == [EndLine];
    assert EndLine !in Kinds(before) by {
      forall k | 0 <= k < |before|
        ensures Kinds(before)[k] != EndLine
      {
        assert before[k] != End;
      }
    }
    KindsStopAtEnd(Kinds(before), Kinds(after), reading);
  }

  lemma {:induction false} KindsPreamble(ks: seq<LineKind>, rest: seq<LineKind>)
    requires BeginLine !in ks && EndLine !in ks
    ensures ScanKinds(ks + [BeginLine] + rest, false) == ScanKinds(rest, true)
  {
    if ks == [] {
      assert ([BeginLine] + rest)[1..] == rest;
    } else {
      assert (ks + [BeginLine] + rest)[1..] == ks[1..] + [BeginLine] + rest;
      KindsPreamble(ks[1..], rest);
    }
  }

  /** Connection lines before the "Connections:" marker are ignored. */
  lemma ReadIgnoresPreamble(before: seq<string>, after: seq<string>)
    requires Begin !in before && End !in before
    ensures Scan(before + [Begin] + after, false) == Scan(after, true)
  {
    KindsAppend(before + [Begin], after);
    KindsAppend(before, [Begin]);
    assert Kinds([Begin]) == [BeginLine];
    assert BeginLine !in Kinds(before) && EndLine !in Kinds(before) by {
      forall k | 0 <= k < |before|
        ensures Kinds(before)[k] != BeginLine && Kinds(before)[k] != EndLine
      {
        assert before[k] != Begin && before[k] != End;
      }
    }
    KindsPreamble(Kinds(before), Kinds(after));
  }
}
