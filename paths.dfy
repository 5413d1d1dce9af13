/** Dot-notation paths as the mutators read them: segments split at dots, the
    segment classification of Mutators.isNumeric, Integer.parseInt, the
    diagnostics thrown for a path that cannot be followed, and the location
    (sequence of tree steps) a path names. */
module Paths {
  import opened Wrappers
  import opened Strings
  import opened JsonTree

  /** Integer.MAX_VALUE; Integer.parseInt throws NumberFormatException above it. */
  const MaxInt: int := 0x7fff_ffff

  predicate IsDigit(c: char) {
    '0' <= c <= '9'
  }

  /** Mutators.NUMBER (\d+) matched against the whole segment: a digit followed by \d*. */
  function IsNumeric(s: string): (b: bool)
    ensures b <==> |s| > 0 && forall i :: 0 <= i < |s| ==> IsDigit(s[i])
  {
    |s| > 0 && IsDigit(s[0]) && (|s| == 1 || IsNumeric(s[1..]))
  }

  /** The decimal value of a string of digits, leading zeros included. */
  function DecimalValue(s: string): nat
    requires forall i :: 0 <= i < |s| ==> IsDigit(s[i])
  {
    if s == [] then 0 else DecimalValue(s[..|s| - 1]) * 10 + DigitValue(s[|s| - 1])
  }

  function DigitValue(c: char): nat
    requires IsDigit(c)
  {
    (c as int) - ('0' as int)
  }

  /** A path could not be followed; each constructor is one exception the Java code throws. */
  datatype PathError =
      /** getNode: IllegalArgumentException "Could not find node <segment> in <context>". */
    | NotFound(segment: string, context: string)
      /** setValue on an array parent: IllegalArgumentException "As <context> is an array, '<segment>' should be a number". */
    | NotAnIndex(segment: string, context: string)
      /** Integer.parseInt: NumberFormatException for a digit string above Integer.MAX_VALUE. */
    | NotANumber(segment: string)
      /** ClassCastException: the parent of the final segment is not an ObjectNode. */
    | NotAnObject
      /** copy: ArrayIndexOutOfBoundsException, the target has no dot to split at. */
    | NoTargetParent(target: string)

  /** Integer.parseInt on a segment already known to be numeric. */
  function ParseInt(s: string): (r: Result<nat, PathError>)
    requires IsNumeric(s)
    ensures r.Success? <==> DecimalValue(s) <= MaxInt
    ensures r.Success? ==> r.value == DecimalValue(s)
    ensures r.Failure? ==> r.error == NotANumber(s)
  {
    var n := DecimalValue(s);
    if n <= MaxInt then Success(n) else Failure(NotANumber(s))
  }

  /** Integer.toString of a non-negative number: its decimal digits, without leading zeros. */
  function Digits(n: nat): (s: string)
    ensures |s| >= 1 && forall i :: 0 <= i < |s| ==> IsDigit(s[i])
    decreases n
  {
    var last := ('0' as int + n % 10) as char;
    if n < 10 then [last] else Digits(n / 10) + [last]
  }

  /** Reading the decimal digits of a number gives the number back. */
  lemma {:induction false} DecimalOfDigits(n: nat)
    ensures DecimalValue(Digits(n)) == n
    decreases n
  {
    var s := Digits(n);
    var last := ('0' as int + n % 10) as char;
    assert DigitValue(last) == n % 10;
    if n < 10 {
      assert s == [last] && s[..0] == [];
    } else {
      DecimalOfDigits(n / 10);
      assert s == Digits(n / 10) + [last];
      assert s[..|s| - 1] == Digits(n / 10) && s[|s| - 1] == last;
      assert n == (n / 10) * 10 + n % 10;
    }
  }

  /** Integer.parseInt(Integer.toString(n)) == n for every n from 0 to Integer.MAX_VALUE, and
      the digits of a larger number are numeric yet refused. */
  lemma ParseIntRoundTrip(n: nat)
    ensures IsNumeric(Digits(n))
    ensures ParseInt(Digits(n)) == if n <= MaxInt then Success(n) else Failure(NotANumber(Digits(n)))
  {
    DecimalOfDigits(n);
  }

  function Pow10(k: nat): (r: nat)
    ensures r >= 1
  {
    if k == 0 then 1 else 10 * Pow10(k - 1)
  }

  /** A string of k digits stands for a number below 10^k. */
  lemma {:induction false} DecimalBound(s: string)
    requires forall i :: 0 <= i < |s| ==> IsDigit(s[i])
    ensures DecimalValue(s) < Pow10(|s|)
  {
    if s != [] {
      var init := s[..|s| - 1];
      DecimalBound(init);
      assert DecimalValue(init) + 1 <= Pow10(|init|);
      assert DecimalValue(s) == DecimalValue(init) * 10 + DigitValue(s[|s| - 1]);
      assert DecimalValue(s) < (DecimalValue(init) + 1) * 10;
    }
  }

  /** Every numeric segment of at most nine digits is an int, so parseInt never throws on it. */
  lemma NineDigitsParse(s: string)
    requires IsNumeric(s) && |s| <= 9
    ensures ParseInt(s).Success?
  {
    DecimalBound(s);
    Pow10Grows(|s|, 9);
    assert Pow10(9) == 1_000_000_000;
  }

  lemma {:induction false} Pow10Grows(j: nat, k: nat)
    requires j <= k
    ensures Pow10(j) <= Pow10(k)
    decreases k
  {
    if j < k {
      Pow10Grows(j, k - 1);
    }
  }

  /** Leading zeros do not change the index a segment names: "007" and "7" are the same index. */
  lemma {:induction false} LeadingZero(s: string)
    requires forall i :: 0 <= i < |s| ==> IsDigit(s[i])
    ensures forall i :: 0 <= i < |"0" + s| ==> IsDigit(("0" + s)[i])
    ensures DecimalValue("0" + s) == DecimalValue(s)
  {
    if s != [] {
      assert ("0" + s)[..|"0" + s| - 1] == "0" + s[..|s| - 1];
      LeadingZero(s[..|s| - 1]);
    }
  }

  /** The spaces-then-carets line under a diagnostic's path line. */
  function CaretLine(context: string, segment: string): (r: string)
    ensures |r| == |context| + |segment|
    ensures forall i :: 0 <= i < |r| ==> (r[i] == '^' <==> |context| <= i) && (r[i] == ' ' <==> i < |context|)
  {
    Repeat(' ', |context|) + Repeat('^', |segment|)
  }

  function Header(e: PathError): string
    requires e.NotFound? || e.NotAnIndex?
  {
    if e.NotFound? then "Could not find node " + e.segment + " in " + e.context
    else "As " + e.context + " is an array, '" + e.segment + "' should be a number"
  }

  /** The exception message: the header, then the path line, then the caret line. */
  function Diagnostic(e: PathError): string
    requires e.NotFound? || e.NotAnIndex?
  {
    Header(e) + "\n  " + e.context + e.segment + "\n  " + CaretLine(e.context, e.segment)
  }

  /** The last two lines of a diagnostic: under the path line, the carets stand exactly
      beneath the segment, and the caret line is the message's last line. */
  lemma DiagnosticLayout(e: PathError)
    requires e.NotFound? || e.NotAnIndex?
    ensures var d := Diagnostic(e);
            var pathLine := e.context + e.segment;
            var caretLine := CaretLine(e.context, e.segment);
            && d == Header(e) + "\n  " + pathLine + "\n  " + caretLine
            && '\n' !in caretLine
            && d[|d| - |caretLine|..] == caretLine
            && |caretLine| == |pathLine|
            && (forall i :: 0 <= i < |pathLine| ==> (caretLine[i] == '^' <==> |e.context| <= i))
            && pathLine[|e.context|..] == e.segment
  {
    var caretLine := CaretLine(e.context, e.segment);
    var head := Header(e) + "\n  ";
    AppendAssoc(head, e.context, e.segment);
    var prefix := head + (e.context + e.segment) + "\n  ";
    DropPrefix(prefix, caretLine);
    DropPrefix(e.context, e.segment);
    assert forall i :: 0 <= i < |caretLine| ==> caretLine[i] != '\n';
  }

  lemma AppendAssoc<T>(a: seq<T>, b: seq<T>, c: seq<T>)
    ensures a + b + c == a + (b + c)
  {
  }

  lemma DropPrefix<T>(a: seq<T>, b: seq<T>)
    ensures (a + b)[|a|..] == b
  {
  }

  /** String.split("\\.", 2) on a path that contains a dot: the text before the first dot and after it. */
  function SplitFirst(p: string): (r: (string, string))
    requires '.' in p
    ensures p == r.0 + "." + r.1 && '.' !in r.0
  {
    var i := IndexOf(p, '.');
    assert p == p[..i] + "." + p[i + 1..];
    (p[..i], p[i + 1..])
  }

  /** String.split("\\.(?=[^.]*$)", 2) on a path that contains a dot: the text before the last dot and after it. */
  function SplitLast(p: string): (r: (string, string))
    requires '.' in p
    ensures p == r.0 + "." + r.1 && '.' !in r.1
  {
    var i := LastIndexOf(p, '.');
    assert p == p[..i] + "." + p[i + 1..];
    (p[..i], p[i + 1..])
  }

  /** Segments joined back with dots. */
  function Join(segs: seq<string>): string
    requires |segs| >= 1
  {
    if |segs| == 1 then segs[0] else segs[0] + "." + Join(segs[1..])
  }

  /** The segments a path is walked through, splitting at the first dot again and again. */
  function Segments(p: string): (r: seq<string>)
    ensures |r| >= 1
    decreases |p|
  {
    if '.' in p then
      var (head, rest) := SplitFirst(p);
      [head] + Segments(rest)
    else [p]
  }

  /** The segments of a path are dot-free and join back with dots into the path. */
  lemma {:induction false} SegmentsJoin(p: string)
    ensures var r := Segments(p);
            && (forall i :: 0 <= i < |r| ==> '.' !in r[i])
            && Join(r) == p
    decreases |p|
  {
    if '.' in p {
      var (head, rest) := SplitFirst(p);
      SegmentsJoin(rest);
      var r := Segments(p);
      assert r[0] == head && r[1..] == Segments(rest);
      forall i | 0 <= i < |r| ensures '.' !in r[i] {
        if i > 0 {
          assert r[i] == Segments(rest)[i - 1];
        }
      }
    }
  }

  /** Splitting at any dot splits the segments there. */
  lemma {:induction false} SegmentsAppend(a: string, b: string)
    ensures Segments(a + "." + b) == Segments(a) + Segments(b)
    decreases |a|
  {
    if '.' in a {
      var (ah, ar) := SplitFirst(a);
      SegmentsAppend(ar, b);
      SegmentsAppendStep(a, b, ah, ar);
    } else {
      SegmentsSplit(a + "." + b, a, b);
    }
  }

  /** The step of SegmentsAppend for an a with a dot, given the claim for the rest of a. */
  lemma SegmentsAppendStep(a: string, b: string, ah: string, ar: string)
    requires a == ah + "." + ar && '.' !in ah
    requires Segments(ar + "." + b) == Segments(ar) + Segments(b)
    ensures Segments(a + "." + b) == Segments(a) + Segments(b)
  {
    var rest := ar + "." + b;
    assert Segments(a + "." + b) == [ah] + Segments(rest) by {
      assert a + "." + b == ah + "." + rest;
      SegmentsSplit(a + "." + b, ah, rest);
    }
    assert Segments(a) == [ah] + Segments(ar) by {
      SegmentsSplit(a, ah, ar);
    }
    ConsAppend(ah, Segments(ar), Segments(b));
  }

  lemma ConsAppend<T>(h: T, x: seq<T>, y: seq<T>)
    ensures [h] + (x + y) == [h] + x + y
  {
  }

  /** A path whose first dot follows x walks x, then the segments after that dot. */
  lemma SegmentsSplit(p: string, x: string, y: string)
    requires p == x + "." + y && '.' !in x
    ensures Segments(p) == [x] + Segments(y)
  {
    SplitFirstUnique(p, x, y);
  }

  lemma SplitFirstUnique(p: string, x: string, y: string)
    requires p == x + "." + y && '.' !in x
    ensures '.' in p && SplitFirst(p) == (x, y)
  {
    assert p[|x|] == '.';
    IndexOfFirstDot(x, y);
    assert p[..|x|] == x && p[|x| + 1..] == y;
  }

  lemma {:induction false} IndexOfFirstDot(x: string, y: string)
    requires '.' !in x
    ensures '.' in x + "." + y && IndexOf(x + "." + y, '.') == |x|
  {
    var p := x + "." + y;
    assert p[|x|] == '.';
    if x != [] {
      assert p[0] == x[0] && p[1..] == x[1..] + "." + y;
      IndexOfFirstDot(x[1..], y);
    }
  }

  /** The last dot of a + "." + b, where b has no dot, is the one between them. */
  lemma SplitLastUnique(p: string, a: string, b: string)
    requires p == a + "." + b && '.' !in b
    ensures '.' in p && SplitLast(p) == (a, b)
  {
    assert p[|a|] == '.';
    assert p[..|a|] == a && p[|a| + 1..] == b;
  }

  /** The last dot of x + "." + y, where x has no dot, is the last dot of y if y has one. */
  lemma SplitLastOfDotted(x: string, y: string)
    requires '.' !in x
    ensures '.' in x + "." + y
    ensures SplitLast(x + "." + y) ==
              if '.' in y then (x + "." + SplitLast(y).0, SplitLast(y).1) else (x, y)
  {
    if '.' in y {
      var (y0, y1) := SplitLast(y);
      assert x + "." + y == (x + "." + y0) + "." + y1;
      SplitLastUnique(x + "." + y, x + "." + y0, y1);
    } else {
      SplitLastUnique(x + "." + y, x, y);
    }
  }

  /** Splitting a path at its last dot: the parent path's segments, then the last segment. */
  lemma SegmentsOfSplitLast(p: string)
    requires '.' in p
    ensures var (parent, last) := SplitLast(p);
            Segments(p) == Segments(parent) + [last]
  {
    var (parent, last) := SplitLast(p);
    SegmentsAppend(parent, last);
  }

  /** The tree step a segment stands for: an index when it is numeric, a key otherwise. */
  function StepOf(seg: string): Result<Step, PathError> {
    if IsNumeric(seg) then
      var n :- ParseInt(seg);
      Success(Index(n))
    else Success(Key(seg))
  }

  /** The location a sequence of segments names, when every numeric segment fits an int. */
  function StepsOf(segs: seq<string>): (r: Option<seq<Step>>)
    ensures r.Some? ==> |r.value| == |segs|
  {
    if segs == [] then Some([])
    else
      match StepOf(segs[0])
      case Failure(_) => None
      case Success(s) =>
        match StepsOf(segs[1..])
        case None => None
        case Some(rest) => Some([s] + rest)
  }

  lemma {:induction false} StepsOfAppend(a: seq<string>, b: seq<string>)
    ensures StepsOf(a + b) == (if StepsOf(a).Some? && StepsOf(b).Some? then Some(StepsOf(a).value + StepsOf(b).value) else None)
  {
    if a != [] {
      assert (a + b)[0] == a[0] && (a + b)[1..] == a[1..] + b;
      StepsOfAppend(a[1..], b);
      if StepsOf(a).Some? && StepsOf(b).Some? {
        assert StepsOf(a + b).value == StepsOf(a).value + StepsOf(b).value;
      }
    } else {
      assert a + b == b;
      if StepsOf(b).Some? {
        assert [] + StepsOf(b).value == StepsOf(b).value;
      }
    }
  }

  /** The caret underline of a diagnostic lies under exactly one whole segment of the full path:
      the path line is a prefix of the full path, the context is empty or ends with a dot, and
      the segment runs up to the next dot or the end. */
  predicate Locates(e: PathError, full: string) {
    (e.NotFound? || e.NotAnIndex?) ==>
      var n := |e.context| + |e.segment|;
      && n <= |full|
      && full[..n] == e.context + e.segment
      && (e.context == "" || e.context[|e.context| - 1] == '.')
      && '.' !in e.segment
      && (n == |full| || full[n] == '.')
  }
}
