/**
 * The tail of a command's output under a line budget and a byte budget (src/tool-output.ts).
 */
module ToolOutput {
  import opened Text

  /** Bytes of a character in UTF-8. */
  function CharBytes(c: char): nat {
    if c < '\U{0080}' then 1 else if c < '\U{0800}' then 2 else if c < '\U{10000}' then 3 else 4
  }

  function Utf8Bytes(s: string): nat {
    if s == "" then 0 else CharBytes(s[0]) + Utf8Bytes(s[1..])
  }

  function JoinLines(lines: seq<string>): string {
    if lines == [] then ""
    else if |lines| == 1 then lines[0]
    else lines[0] + "\n" + JoinLines(lines[1..])
  }

  /** The code points that one to four bytes have room for: 7, 11, 16 and 21 bits (section 3 of RFC 3629). */
  const ROOM: seq<int> := [0x80, 0x800, 0x1_0000, 0x20_0000]

  /** A character takes the fewest bytes that have room for it. */
  lemma FewestBytes(c: char)
    ensures 1 <= CharBytes(c) <= 4 && c as int < ROOM[CharBytes(c) - 1]
    ensures CharBytes(c) > 1 ==> c as int >= ROOM[CharBytes(c) - 2]
  {
  }

  /** What the walk counts: every line with one byte for a newline, the last one included. */
  function Cost(lines: seq<string>): nat {
    if lines == [] then 0 else Utf8Bytes(lines[0]) + 1 + Cost(lines[1..])
  }

  /**
   * The budgets as the walk applies them: at most `maxLines` lines, and a text strictly smaller than `maxBytes`,
   * since the last line is charged for a newline it does not have.
   */
  predicate Fits(lines: seq<string>, maxLines: nat, maxBytes: nat) {
    |lines| <= maxLines && (lines == [] || Utf8Bytes(JoinLines(lines)) < maxBytes)
  }

  datatype View =
    | Whole
    | Tail(startLine: nat, kept: seq<string>)
    | Head(slice: string)

  lemma {:induction false} BytesConcat(a: string, b: string)
    ensures Utf8Bytes(a + b) == Utf8Bytes(a) + Utf8Bytes(b)
  {
    if a == "" {
      assert a + b == b;
    } else {
      BytesConcat(a[1..], b);
      assert (a + b)[1..] == a[1..] + b;
    }
  }

  lemma {:induction false} CostIsSize(lines: seq<string>)
    requires lines != []
    ensures Cost(lines) == Utf8Bytes(JoinLines(lines)) + 1
  {
    if |lines| == 1 {
      assert lines[1..] == [];
    } else {
      CostIsSize(lines[1..]);
      BytesConcat(lines[0] + "\n", JoinLines(lines[1..]));
      BytesConcat(lines[0], "\n");
      assert Utf8Bytes("\n") == 1 + Utf8Bytes("\n"[1..]);
    }
  }

  lemma {:induction false} LinesJoin(s: string)
    ensures JoinLines(Lines(s)) == s
  {
    if s != "" {
      LinesJoin(s[1..]);
      var rest := Lines(s[1..]);
      if s[0] != '\n' && |rest| > 1 {
        assert ([[s[0]] + rest[0]] + rest[1..])[1..] == rest[1..];
      }
      assert s == [s[0]] + s[1..];
      assert ([""] + rest)[1..] == rest;
    }
  }

  lemma {:induction false} CostGrows(lines: seq<string>, i: nat, j: nat)
    requires i <= j <= |lines|
    ensures Cost(lines[i..]) >= Cost(lines[j..])
    decreases j - i
  {
    if i < j {
      CostGrows(lines, i + 1, j);
      assert lines[i..][1..] == lines[i + 1..];
    }
  }

  /** Of two suffixes the shorter one fits if the longer does. */
  lemma FitsShrinks(lines: seq<string>, i: nat, j: nat, maxLines: nat, maxBytes: nat)
    requires i <= j <= |lines| && Fits(lines[i..], maxLines, maxBytes)
    ensures Fits(lines[j..], maxLines, maxBytes)
  {
    if j < |lines| {
      CostGrows(lines, i, j);
      CostIsSize(lines[i..]);
      CostIsSize(lines[j..]);
    }
  }

  lemma NothingLongerFits(lines: seq<string>, i: nat, maxLines: nat, maxBytes: nat)
    requires i <= |lines| && !Fits(lines[i..], maxLines, maxBytes)
    ensures forall k :: 0 <= k <= i ==> !Fits(lines[k..], maxLines, maxBytes)
  {
    forall k | 0 <= k <= i ensures !Fits(lines[k..], maxLines, maxBytes) {
      if Fits(lines[k..], maxLines, maxBytes) {
        FitsShrinks(lines, k, i, maxLines, maxBytes);
      }
    }
  }

  predicate OverBudget(output: string, maxLines: nat, maxBytes: nat) {
    output != "" && (|Lines(output)| > maxLines || Utf8Bytes(output) > maxBytes)
  }

  /**
   * What the caller is shown: everything if it is within both budgets; else the longest suffix of lines that
   * fits, which leaves out at least one line; else, when not even the last line fits, the first `maxBytes`
   * characters of the output.
   */
  ghost predicate Shows(output: string, maxLines: nat, maxBytes: nat, view: View) {
    var lines := Lines(output);
    match view
    case Whole => !OverBudget(output, maxLines, maxBytes)
    case Tail(startLine, kept) =>
      && OverBudget(output, maxLines, maxBytes)
      && 2 <= startLine <= |lines| && kept == lines[startLine - 1..] && Fits(kept, maxLines, maxBytes)
      && forall i :: 0 <= i < startLine - 1 ==> !Fits(lines[i..], maxLines, maxBytes)
    case Head(slice) =>
      && OverBudget(output, maxLines, maxBytes) && !Fits(lines[|lines| - 1..], maxLines, maxBytes)
      && slice == output[..if maxBytes < |output| then maxBytes else |output|]
  }

  method FormatToolOutput(output: string, maxLines: nat, maxBytes: nat) returns (view: View)
    ensures Shows(output, maxLines, maxBytes, view)
  {
    if |output| == 0 {
      return Whole;
    }
    hide Lines, JoinLines, Utf8Bytes;
    var lines := Lines(output);
    var total := Utf8Bytes(output);
    if |lines| <= maxLines && total <= maxBytes {
      return Whole;
    }
    var i := |lines|;
    var kept: seq<string> := [];
    var keptBytes := 0;
    while i > 0
      invariant 0 <= i <= |lines| && kept == lines[i..]
      invariant keptBytes == Cost(kept) && |kept| <= maxLines && (kept != [] ==> keptBytes <= maxBytes)
    {
      var line := lines[i - 1];
      var lineBytes := Utf8Bytes(line) + 1;
      assert lines[i - 1..][1..] == lines[i..];
      if |kept| + 1 > maxLines || keptBytes + lineBytes > maxBytes {
        break;
      }
      kept := [line] + kept;
      keptBytes := keptBytes + lineBytes;
      i := i - 1;
    }
    WalkEnds(output, i, maxLines, maxBytes);
    hide Cost, Fits, Shows;
    if |kept| == 0 {
      return Head(output[..if maxBytes < |output| then maxBytes else |output|]);
    }
    view := Tail(|lines| - |kept| + 1, kept);
  }

  /** Where the walk stops, the lines behind it are the ones to show, or the head is if there are none. */
  lemma WalkEnds(output: string, i: nat, maxLines: nat, maxBytes: nat)
    requires OverBudget(output, maxLines, maxBytes) && i <= |Lines(output)|
    requires var lines := Lines(output); i < |lines| ==> |lines| - i <= maxLines && Cost(lines[i..]) <= maxBytes
    requires var lines := Lines(output); i > 0 ==>
      |lines| - i + 1 > maxLines || Cost(lines[i..]) + Utf8Bytes(lines[i - 1]) + 1 > maxBytes
    ensures var lines := Lines(output);
      Shows(output, maxLines, maxBytes,
            if i == |lines| then Head(output[..if maxBytes < |output| then maxBytes else |output|])
            else Tail(i + 1, lines[i..]))
  {
    var lines := Lines(output);
    hide Lines, Cost, Fits, Utf8Bytes, JoinLines;
    NotEverythingFits(output, maxLines, maxBytes);
    StoppedAt(lines, i, maxLines, maxBytes);
    assert lines[0..] == lines;
    if i > 0 {
      NothingLongerFits(lines, i - 1, maxLines, maxBytes);
    }
  }

  /** When the output is over a budget, at least one line has to go. */
  lemma NotEverythingFits(output: string, maxLines: nat, maxBytes: nat)
    ensures |Lines(output)| > maxLines || Utf8Bytes(output) > maxBytes ==> !Fits(Lines(output), maxLines, maxBytes)
    ensures Cost(Lines(output)) == Utf8Bytes(output) + 1
  {
    LinesJoin(output);
    CostIsSize(Lines(output));
  }

  /** The walk's own test at the line where it stopped is the budget test for the longer suffix. */
  lemma StoppedAt(lines: seq<string>, i: nat, maxLines: nat, maxBytes: nat)
    requires i <= |lines|
    ensures i < |lines| ==>
      (Fits(lines[i..], maxLines, maxBytes) <==> |lines| - i <= maxLines && Cost(lines[i..]) <= maxBytes)
    ensures (i > 0 ==>
      (Fits(lines[i - 1..], maxLines, maxBytes) <==>
        |lines| - i + 1 <= maxLines && Cost(lines[i..]) + Utf8Bytes(lines[i - 1]) + 1 <= maxBytes))
  {
    if i < |lines| {
      CostIsSize(lines[i..]);
    }
    if i > 0 {
      CostIsSize(lines[i - 1..]);
      assert lines[i - 1..][1..] == lines[i..];
    }
  }

  /** One output and one pair of budgets have one view. */
  lemma OneView(output: string, maxLines: nat, maxBytes: nat, v: View, w: View)
    requires Shows(output, maxLines, maxBytes, v) && Shows(output, maxLines, maxBytes, w)
    ensures v == w
  {
    var lines := Lines(output);
    if v.Tail? {
      FitsShrinks(lines, v.startLine - 1, |lines| - 1, maxLines, maxBytes);
    }
    if w.Tail? {
      FitsShrinks(lines, w.startLine - 1, |lines| - 1, maxLines, maxBytes);
    }
    hide Lines, Fits, OverBudget;
  }

  // ---------- The announced budgets ----------

  /** The budgets as they are announced: at most `maxLines` lines and at most `maxBytes` bytes. */
  predicate Within(lines: seq<string>, maxLines: nat, maxBytes: nat) {
    |lines| <= maxLines && Utf8Bytes(JoinLines(lines)) <= maxBytes
  }

  /** A suffix of lines that is within the announced budgets and uses the bytes up. */
  predicate Fills(lines: seq<string>, i: nat, maxLines: nat, maxBytes: nat) {
    i < |lines| && |lines| - i <= maxLines && Utf8Bytes(JoinLines(lines[i..])) == maxBytes
  }

  /** The first line shown, counted from zero; of the head, no line is. */
  function FirstShown(output: string, view: View): int {
    if view.Whole? then 0 else if view.Tail? then view.startLine - 1 else |Lines(output)|
  }

  /** A longer suffix would have been within the announced budgets. */
  predicate LeavesOut(lines: seq<string>, start: int, maxLines: nat, maxBytes: nat) {
    exists i :: 0 <= i < start && i < |lines| && Within(lines[i..], maxLines, maxBytes)
  }

  /**
   * More could have been shown within the announced budgets exactly when some suffix uses the byte budget up:
   * the walk charges the last line for a newline it does not have, and so gives up the line that would fill it.
   */
  lemma LosesALineExactly(output: string, maxLines: nat, maxBytes: nat, view: View)
    requires Shows(output, maxLines, maxBytes, view)
    ensures LeavesOut(Lines(output), FirstShown(output, view), maxLines, maxBytes) <==>
      OverBudget(output, maxLines, maxBytes) && exists i: nat :: Fills(Lines(output), i, maxLines, maxBytes)
  {
    var lines, start := Lines(output), FirstShown(output, view);
    if view.Whole? {
      return;
    }
    forall i | 0 <= i < start && i < |lines| ensures !Fits(lines[i..], maxLines, maxBytes) {
      if view.Head? && Fits(lines[i..], maxLines, maxBytes) {
        FitsShrinks(lines, i, |lines| - 1, maxLines, maxBytes);
      }
    }
    hide Lines, OverBudget, Shows, FirstShown;
    assert start < |lines| ==> Fits(lines[start..], maxLines, maxBytes) && OverBudget(output, maxLines, maxBytes);
    LeftOutFills(lines, start, maxLines, maxBytes);
  }

  lemma LeftOutFills(lines: seq<string>, start: nat, maxLines: nat, maxBytes: nat)
    requires start <= |lines| && (start < |lines| ==> Fits(lines[start..], maxLines, maxBytes))
    requires forall i :: 0 <= i < start ==> !Fits(lines[i..], maxLines, maxBytes)
    ensures LeavesOut(lines, start, maxLines, maxBytes) <==> exists i: nat :: Fills(lines, i, maxLines, maxBytes)
  {
    hide Fits, Fills, Within;
    if LeavesOut(lines, start, maxLines, maxBytes) {
      var i :| 0 <= i < start && i < |lines| && Within(lines[i..], maxLines, maxBytes);
      WithinButNotFitting(lines, i, maxLines, maxBytes);
    }
    if i: nat :| Fills(lines, i, maxLines, maxBytes) {
      FillingIsCutOff(lines, start, i, maxLines, maxBytes);
    }
  }

  lemma WithinButNotFitting(lines: seq<string>, i: nat, maxLines: nat, maxBytes: nat)
    requires i < |lines| && Within(lines[i..], maxLines, maxBytes) && !Fits(lines[i..], maxLines, maxBytes)
    ensures Fills(lines, i, maxLines, maxBytes)
  {
  }

  lemma FillingIsCutOff(lines: seq<string>, start: nat, i: nat, maxLines: nat, maxBytes: nat)
    requires start <= |lines| && (start < |lines| ==> Fits(lines[start..], maxLines, maxBytes))
    requires Fills(lines, i, maxLines, maxBytes)
    ensures i < start && i < |lines| && Within(lines[i..], maxLines, maxBytes)
  {
    hide Utf8Bytes, JoinLines;
    assert |lines[i..]| == |lines| - i;
    if i >= start {
      FitsShrinks(lines, start, i, maxLines, maxBytes);
    }
  }

  /** A line lost: two lines of three bytes in all are within a budget of three bytes, and one is shown. */
  lemma LosesALine()
    ensures Shows("x\na\nb", 10, 3, Tail(3, ["b"]))
    ensures Lines("x\na\nb")[1..] == ["a", "b"] && Within(["a", "b"], 10, 3)
  {
    var lines := ["x", "a", "b"];
    ThreeLines();
    ThreeCosts();
    NotEverythingFits("x\na\nb", 10, 3);
    CostIsSize(["b"]);
    CostIsSize(["a", "b"]);
    CostIsSize(lines);
    assert lines[2..] == ["b"] && lines[1..] == ["a", "b"] && lines[0..] == lines;
    hide Lines, Utf8Bytes, JoinLines, Cost;
    assert Within(lines[1..], 10, 3);
  }

  lemma ThreeLines()
    ensures Lines("x\na\nb") == ["x", "a", "b"]
  {
    OneLine("b");
    LineThenRest("a", "b");
    LineThenRest("x", "a\nb");
    hide Lines;
    assert "a" + "\n" + "b" == "a\nb" && "x" + "\n" + "a\nb" == "x\na\nb";
  }

  lemma ThreeCosts()
    ensures Cost(["b"]) == 2 && Cost(["a", "b"]) == 4 && Cost(["x", "a", "b"]) == 6
  {
    SingleByte("x");
    SingleByte("a");
    SingleByte("b");
    assert ["x", "a", "b"][1..] == ["a", "b"] && ["a", "b"][1..] == ["b"] && ["b"][1..] == [];
    hide Utf8Bytes;
  }

  lemma SingleByte(s: string)
    requires |s| == 1 && s[0] < '\U{0080}'
    ensures Utf8Bytes(s) == 1
  {
    assert s[1..] == "";
  }

  // ---------- The head instead of the tail ----------

  lemma {:induction false} SingleLineExactly(output: string)
    ensures |Lines(output)| == 1 <==> '\n' !in output
  {
    if output != "" {
      SingleLineExactly(output[1..]);
      assert output == [output[0]] + output[1..];
    }
  }

  lemma {:induction false} LastLineCost(lines: seq<string>)
    requires |lines| > 1
    ensures Cost(lines) > Cost(lines[|lines| - 1..])
  {
    assert lines[1..][|lines| - 2..] == lines[|lines| - 1..];
    if |lines| > 2 {
      LastLineCost(lines[1..]);
    }
  }

  /**
   * The head is shown, and announced as the slice of a single line, exactly when the output is over a budget and
   * its last line does not fit; that line is the only one exactly without a line break. With a line break, the
   * last line alone decides: it has `maxBytes` bytes or more, or no line is allowed at all.
   */
  lemma HeadExactly(output: string, maxLines: nat, maxBytes: nat, view: View)
    requires Shows(output, maxLines, maxBytes, view)
    ensures var lines := Lines(output);
      && (view.Head? <==> OverBudget(output, maxLines, maxBytes) && !Fits(lines[|lines| - 1..], maxLines, maxBytes))
      && (view.Head? && |lines| > 1 <==>
            '\n' in output && (maxLines == 0 || Utf8Bytes(lines[|lines| - 1]) >= maxBytes))
  {
    var lines := Lines(output);
    var n := |lines| - 1;
    SingleLineExactly(output);
    NotEverythingFits(output, maxLines, maxBytes);
    CostIsSize(lines[n..]);
    assert lines[n..] == [lines[n]] && JoinLines([lines[n]]) == lines[n];
    if n > 0 {
      LastLineCost(lines);
    }
    if view.Tail? {
      FitsShrinks(lines, view.startLine - 1, n, maxLines, maxBytes);
    }
    hide Lines, Utf8Bytes, Cost, JoinLines;
  }

  /** A two-line output of which the head is shown, although its last line is within the announced budgets. */
  lemma HeadOfTwoLines()
    ensures Shows("\nb", 2, 1, Head("\n")) && Lines("\nb") == ["", "b"] && Within(["b"], 2, 1)
  {
    assert "\nb"[1..] == "b" && "b"[1..] == "";
    assert Lines("b") == [['b'] + ""] + [] && ['b'] + "" == "b";
    assert Utf8Bytes("b") == CharBytes('b') + Utf8Bytes("");
    assert Lines("\nb")[1..] == ["b"] && JoinLines(["b"]) == "b";
    assert "\nb"[..1] == "\n";
  }
}
