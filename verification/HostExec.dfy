/**
 * The argument grammar of `/devcontainer host-exec` (src/commands.ts): one `--argv` word per argument.
 *
 * The parser is proved to undo the obvious printer, on exactly the argument lists the grammar can
 * express, and every argument list it accepts is one of those.
 */
module HostExec {
  import opened Text

  const FLAG := "--argv"

  datatype Refusal = Usage | FreeText | NeedsValue

  datatype Parsed = Ok(argv: seq<string>) | Err(refusal: Refusal)

  /** `--argv` at `i`, followed by `=`, white space or the end. */
  predicate FlagAt(s: string, i: nat) {
    i + 6 <= |s| && s[i..i + 6] == FLAG && (i + 6 == |s| || s[i + 6] == '=' || IsSpace(s[i + 6]))
  }

  /** A flag that starts a word. */
  predicate WordAt(s: string, i: nat) {
    FlagAt(s, i) && (i == 0 || IsSpace(s[i - 1]))
  }

  function FindFrom(s: string, i: nat): (k: Option<nat>)
    requires i <= |s|
    ensures k.Some? ==> i <= k.value < |s| && WordAt(s, k.value) && forall j :: i <= j < k.value ==> !WordAt(s, j)
    ensures k.None? ==> forall j :: i <= j ==> !WordAt(s, j)
    decreases |s| - i
  {
    if i == |s| then None else if WordAt(s, i) then Some(i) else FindFrom(s, i + 1)
  }

  /** One turn of the parser: an argument and what is left, or a refusal. */
  datatype Turn = Next(value: string, rest: string) | Stop(refusal: Refusal)

  function TurnOf(rest: string): (t: Turn)
    requires rest != ""
    ensures t.Next? ==> |t.rest| < |rest|
    ensures t == Stop(FreeText) <==> !FlagAt(rest, 0)
  {
    if !FlagAt(rest, 0) then Stop(FreeText)
    else
      var after := rest[6..];
      if StartsWith(after, "=") then
        var body := after[1..];
        match FindFrom(body, 0)
        case None => Next(TrimEnd(body), "")
        case Some(k) => Next(TrimEnd(body[..k]), body[k..])
      else if Trim(after) == "" then Stop(NeedsValue)
      else
        match FindFrom(after, 0)
        case None => Next(Trim(after), "")
        case Some(k) => if Trim(after[..k]) == "" then Stop(NeedsValue) else Next(Trim(after[..k]), after[k..])
  }

  /** Where the text before the next flag word ends. */
  predicate EndsAt(s: string, k: nat) {
    k <= |s| && (k == |s| || WordAt(s, k)) && forall j :: 0 <= j < k ==> !WordAt(s, j)
  }

  /** Behind `--argv=` the value is the text up to the next flag word, trimmed at its end. */
  lemma GluedExactly(rest: string, k: nat)
    requires FlagAt(rest, 0) && |rest| > 6 && rest[6] == '=' && EndsAt(rest[7..], k)
    ensures TurnOf(rest) == Next(TrimEnd(rest[7..][..k]), rest[7..][k..])
  {
    var after := rest[6..];
    assert after[0] == '=' && after[1..] == rest[7..];
    NextWord(rest[7..], k);
    hide FlagAt, WordAt, EndsAt, FindFrom, TrimEnd;
  }

  /**
   * Behind a bare `--argv` it is trimmed on both sides; a value is wanted exactly when there is only white space up
   * to the next flag word.
   */
  lemma SpacedExactly(rest: string, k: nat)
    requires FlagAt(rest, 0) && (|rest| == 6 || rest[6] != '=') && EndsAt(rest[6..], k)
    ensures var after := rest[6..];
      TurnOf(rest) ==
        if forall i :: 0 <= i < k ==> IsSpace(after[i]) then Stop(NeedsValue) else Next(Trim(after[..k]), after[k..])
  {
    var after := rest[6..];
    NextWord(after, k);
    BlankTrims(after[..k]);
    BlankTrims(after);
    assert !StartsWith(after, "=") by {
      assert after != "" ==> after[0] == rest[6];
    }
    hide FlagAt, WordAt, EndsAt, FindFrom, Trim, StartsWith;
  }

  lemma NextWord(body: string, k: nat)
    requires EndsAt(body, k)
    ensures k <= |body| && FindFrom(body, 0) == if k == |body| then None else Some(k)
    ensures k == |body| ==> body[..k] == body && body[k..] == ""
  {
    hide FlagAt;
  }

  lemma BlankTrims(s: string)
    ensures Trim(s) == "" <==> forall i :: 0 <= i < |s| ==> IsSpace(s[i])
  {
  }

  function Items(rest: string): Parsed
    decreases |rest|
  {
    if rest == "" then Ok([])
    else match TurnOf(rest)
      case Stop(refusal) => Err(refusal)
      case Next(value, more) =>
        match Items(more)
        case Err(refusal) => Err(refusal)
        case Ok(values) => Ok([value] + values)
  }

  function Parse(input: string): Parsed {
    if Trim(input) == "" then Err(Usage) else Items(Trim(input))
  }

  function Prefixed(argv: seq<string>, p: Parsed): Parsed {
    if p.Err? then p else Ok(argv + p.argv)
  }

  method FindNextArgvWord(text: string) returns (index: Option<nat>)
    ensures index == FindFrom(text, 0)
  {
    for i := 0 to |text|
      invariant FindFrom(text, 0) == FindFrom(text, i)
    {
      if WordAt(text, i) {
        return Some(i);
      }
    }
    return None;
  }

  /** The source's branches for one flag. */
  method TakeArgument(rest: string) returns (t: Turn)
    requires rest != ""
    ensures t == TurnOf(rest)
  {
    hide IsSpace, FindFrom, TrimEnd, Trim;
    if !FlagAt(rest, 0) {
      return Stop(FreeText);
    }
    var after := rest[6..];
    if StartsWith(after, "=") {
      var next := FindNextArgvWord(after[1..]);
      var rawValue := if next.None? then after[1..] else after[1..][..next.value];
      return Next(TrimEnd(rawValue), if next.None? then "" else after[1..][next.value..]);
    }
    if Trim(after) == "" {
      return Stop(NeedsValue);
    }
    var next := FindNextArgvWord(after);
    if next.None? {
      return Next(Trim(after), "");
    }
    var value := Trim(after[..next.value]);
    if |value| == 0 {
      return Stop(NeedsValue);
    }
    return Next(value, after[next.value..]);
  }

  lemma PrefixedTwice(argv: seq<string>, value: string, p: Parsed)
    ensures Prefixed(argv, Prefixed([value], p)) == Prefixed(argv + [value], p)
  {
    if p.Ok? {
      assert argv + ([value] + p.argv) == argv + [value] + p.argv;
    }
  }

  lemma PrefixedNothing(p: Parsed, argv: seq<string>)
    ensures Prefixed([], p) == p
    ensures Prefixed(argv, Ok([])) == Ok(argv)
  {
    if p.Ok? {
      assert [] + p.argv == p.argv;
    }
    assert argv + [] == argv;
  }

  method ParseHostExecArgv(input: string) returns (result: Parsed)
    ensures result == Parse(input)
  {
    hide Trim;
    var rest := Trim(input);
    if |rest| == 0 {
      return Err(Usage);
    }
    var argv: seq<string> := [];
    PrefixedNothing(Items(rest), []);
    while |rest| > 0
      invariant Parse(input) == Prefixed(argv, Items(rest))
      invariant |rest| == 0 ==> argv != []
      decreases |rest|
    {
      var turn := TakeArgument(rest);
      if turn.Stop? {
        return Err(turn.refusal);
      }
      PrefixedTwice(argv, turn.value, Items(turn.rest));
      argv := argv + [turn.value];
      rest := turn.rest;
    }
    PrefixedNothing(Items(rest), argv);
    return if |argv| == 0 then Err(Usage) else Ok(argv);
  }

  // ---------- The arguments the grammar can express ----------

  /** No trailing white space, and no `--argv` word inside. */
  ghost predicate Expressible(value: string) {
    TrimEnd(value) == value && forall i :: !WordAt(value, i)
  }

  lemma SliceOfSlice(s: string, from: nat, to: nat, i: nat, j: nat)
    requires from <= to <= |s| && i <= j <= to - from
    ensures s[from..to][i..j] == s[from + i..from + j]
  {
    var slice := s[from..to];
    forall k | 0 <= k < j - i ensures slice[i..j][k] == s[from + i..from + j][k] {
      assert slice[i..j][k] == slice[i + k];
    }
  }

  /** A slice of a text, cut at white space or the ends, has no words but those of the text. */
  lemma NoNewWords(text: string, from: nat, to: nat)
    requires from <= to <= |text|
    requires from == 0 || IsSpace(text[from - 1])
    requires to == |text| || IsSpace(text[to])
    requires forall j :: from <= j < to ==> !WordAt(text, j)
    ensures forall i :: !WordAt(text[from..to], i)
  {
    forall i: nat ensures !WordAt(text[from..to], i) {
      if WordAt(text[from..to], i) {
        SliceOfSlice(text, from, to, i, i + 6);
        assert i > 0 ==> text[from..to][i - 1] == text[from + i - 1];
        assert i + 6 < to - from ==> text[from..to][i + 6] == text[from + i + 6];
        assert WordAt(text, from + i);
      }
    }
  }

  /** The value before the next word, with its separator removed, is expressible. */
  lemma ValueIsExpressible(text: string, from: nat, end: nat, value: string)
    requires end <= |text| && from <= TrimEndAt(text[..end]) && value == TrimEnd(text[..end])[from..]
    requires from == 0 || IsSpace(text[from - 1])
    requires end < |text| ==> end == 0 || IsSpace(text[end - 1])
    requires forall j :: 0 <= j < end ==> !WordAt(text, j)
    ensures Expressible(value)
  {
    var to := TrimEndAt(text[..end]);
    assert value == text[from..to];
    if to == 0 {
      assert value == "";
    } else {
      assert !IsSpace(text[to - 1]);
      if to < end {
        assert IsSpace(text[..end][to]);
      }
      NoNewWords(text, from, to);
      LastIsNoSpace(value);
    }
  }

  lemma LastIsNoSpace(s: string)
    ensures TrimEnd(s) == s <==> s == "" || !IsSpace(s[|s| - 1])
  {
  }

  lemma TurnIsExpressible(rest: string)
    requires rest != "" && TurnOf(rest).Next?
    ensures Expressible(TurnOf(rest).value)
  {
    var after := rest[6..];
    if StartsWith(after, "=") {
      EqualsFormIsExpressible(after[1..]);
    } else {
      SpaceFormIsExpressible(after);
    }
  }

  lemma EqualsFormIsExpressible(body: string)
    ensures var next := FindFrom(body, 0); Expressible(TrimEnd(if next.None? then body else body[..next.value]))
  {
    var next := FindFrom(body, 0);
    var end := if next.None? then |body| else next.value;
    assert body[..|body|] == body;
    assert TrimEnd(body[..end])[0..] == TrimEnd(body[..end]);
    ValueIsExpressible(body, 0, end, TrimEnd(body[..end]));
  }

  lemma SpaceFormIsExpressible(after: string)
    ensures var next := FindFrom(after, 0); Expressible(Trim(if next.None? then after else after[..next.value]))
  {
    var next := FindFrom(after, 0);
    var end := if next.None? then |after| else next.value;
    assert after[..|after|] == after;
    var from := TrimStartAt(TrimEnd(after[..end]));
    assert TrimEnd(after[..end]) == after[..TrimEndAt(after[..end])];
    ValueIsExpressible(after, from, end, Trim(after[..end]));
  }

  lemma {:induction false} ItemsAreExpressible(rest: string)
    requires Items(rest).Ok?
    ensures forall v :: v in Items(rest).argv ==> Expressible(v)
    ensures rest != "" ==> Items(rest).argv != []
    decreases |rest|
  {
    if rest != "" {
      TurnIsExpressible(rest);
      ItemsAreExpressible(TurnOf(rest).rest);
    }
  }

  /** Every accepted argument list is non-empty and expressible. */
  lemma ParsedIsExpressible(input: string)
    requires Parse(input).Ok?
    ensures Parse(input).argv != [] && forall v :: v in Parse(input).argv ==> Expressible(v)
  {
    ItemsAreExpressible(Trim(input));
  }

  // ---------- The printer ----------

  function Print(argv: seq<string>): string {
    if argv == [] then ""
    else FLAG + "=" + if |argv| == 1 then argv[0] else argv[0] + " " + Print(argv[1..])
  }

  lemma NoWordBefore(value: string, more: string, i: nat)
    requires Expressible(value) && i <= |value|
    ensures !WordAt(value + " " + more, i)
  {
    var s := value + " " + more;
    assert s[|value|] == ' ' && ' ' !in FLAG;
    if WordAt(s, i) && i + 6 <= |value| {
      assert s[i..i + 6] == value[i..i + 6];
      assert WordAt(value, i);
    }
  }

  lemma WordBehind(value: string, more: string)
    requires FlagAt(more, 0)
    ensures WordAt(value + " " + more, |value| + 1)
  {
    var s := value + " " + more;
    var n := |value| + 1;
    assert s[n..] == more;
    assert s[n..n + 6] == more[0..6];
    assert |more| > 6 ==> s[n + 6] == more[6];
  }

  /** In front of a further flag, the first word found is that one. */
  lemma NextWordIsThePrinted(value: string, more: string)
    requires Expressible(value) && FlagAt(more, 0)
    ensures FindFrom(value + " " + more, 0) == Some(|value| + 1)
  {
    forall i: nat | i <= |value| ensures !WordAt(value + " " + more, i) {
      NoWordBefore(value, more, i);
    }
    WordBehind(value, more);
    hide WordAt, FlagAt;
  }

  lemma TrimSeparator(value: string)
    requires TrimEnd(value) == value
    ensures TrimEnd(value + " ") == value
  {
    var s := value + " ";
    assert s[..|s| - 1] == value;
    assert TrimEndAt(s) == TrimEndAt(value);
  }

  lemma PrintedFlag(tail: string)
    ensures FlagAt(FLAG + "=" + tail, 0) && (FLAG + "=" + tail)[6..] == "=" + tail
  {
    var s := FLAG + "=" + tail;
    assert s[0..6] == FLAG && s[6] == '=';
  }

  /** One turn on `--argv=` and a text, in terms of the next flag in that text. */
  lemma TurnOnFlag(tail: string)
    ensures var k := FindFrom(tail, 0);
      TurnOf(FLAG + "=" + tail) ==
        if k.None? then Next(TrimEnd(tail), "") else Next(TrimEnd(tail[..k.value]), tail[k.value..])
  {
    PrintedFlag(tail);
    hide FlagAt, TrimEnd, Trim, FindFrom;
    assert ("=" + tail)[1..] == tail;
  }

  lemma SplitAtSeparator(v: string, more: string)
    ensures var tail := v + " " + more; tail[..|v| + 1] == v + " " && tail[|v| + 1..] == more
  {
  }

  lemma PrintStartsWithFlag(argv: seq<string>)
    requires argv != []
    ensures FlagAt(Print(argv), 0)
  {
    PrintedFlag(if |argv| == 1 then argv[0] else argv[0] + " " + Print(argv[1..]));
  }

  lemma PrintedTurn(argv: seq<string>)
    requires argv != [] && Expressible(argv[0])
    ensures TurnOf(Print(argv)) == Next(argv[0], if |argv| == 1 then "" else Print(argv[1..]))
  {
    var v := argv[0];
    if |argv| == 1 {
      TurnOnFlag(v);
      hide FlagAt, TrimEnd, Trim, FindFrom, TurnOf;
    } else {
      var more := Print(argv[1..]);
      PrintStartsWithFlag(argv[1..]);
      TurnOnFlag(v + " " + more);
      assert Print(argv) == FLAG + "=" + (v + " " + more);
      hide FlagAt, TrimEnd, Trim, FindFrom, TurnOf, Print;
      NextWordIsThePrinted(v, more);
      SplitAtSeparator(v, more);
      TrimSeparator(v);
    }
  }

  lemma {:induction false} PrintedItems(argv: seq<string>)
    requires forall v :: v in argv ==> Expressible(v)
    ensures Items(Print(argv)) == Ok(argv)
  {
    if argv != [] {
      assert argv[0] in argv;
      PrintedTurn(argv);
      PrintedItems(argv[1..]);
      assert argv == [argv[0]] + argv[1..];
      if |argv| == 1 {
        assert argv[1..] == [];
      }
    }
  }

  lemma {:induction false} PrintedEndsInNoSpace(argv: seq<string>)
    requires argv != [] && Expressible(argv[|argv| - 1])
    ensures Print(argv) != "" && !IsSpace(Print(argv)[|Print(argv)| - 1])
  {
    if |argv| == 1 {
      LastIsNoSpace(argv[0]);
    } else {
      PrintedEndsInNoSpace(argv[1..]);
    }
  }

  lemma PrintedIsTrimmed(argv: seq<string>)
    requires argv != [] && Expressible(argv[|argv| - 1])
    ensures Trim(Print(argv)) == Print(argv) && Print(argv) != ""
  {
    PrintedEndsInNoSpace(argv);
    LastIsNoSpace(Print(argv));
    assert Print(argv)[0] == '-';
  }

  /** Parsing undoes printing on exactly the non-empty lists of expressible arguments. */
  lemma RoundTrip(argv: seq<string>)
    ensures Parse(Print(argv)) == Ok(argv) <==> argv != [] && forall v :: v in argv ==> Expressible(v)
  {
    if Parse(Print(argv)) == Ok(argv) {
      ParsedIsExpressible(Print(argv));
    }
    if argv != [] && forall v :: v in argv ==> Expressible(v) {
      PrintedIsTrimmed(argv);
      PrintedItems(argv);
    }
  }

  /** So printing what was parsed loses nothing, whatever form the operator typed. */
  lemma ParsePrintParse(input: string)
    requires Parse(input).Ok?
    ensures Parse(Print(Parse(input).argv)) == Parse(input)
  {
    ParsedIsExpressible(input);
    RoundTrip(Parse(input).argv);
  }

  // ---------- Both forms ----------

  datatype Argument = WithEquals(value: string) | WithSpace(value: string)

  /** What each form can say: after a space, the value must neither be empty nor start with white space. */
  ghost predicate Sayable(a: Argument) {
    Expressible(a.value) && (a.WithSpace? ==> a.value != "" && !IsSpace(a.value[0]))
  }

  function PrintForms(args: seq<Argument>): string {
    if args == [] then ""
    else if |args| == 1 then FLAG + Mark(args[0]) + args[0].value
    else FLAG + Mark(args[0]) + (args[0].value + " " + PrintForms(args[1..]))
  }

  function Mark(a: Argument): string {
    if a.WithEquals? then "=" else " "
  }

  function ValuesOf(args: seq<Argument>): seq<string> {
    seq(|args|, i requires 0 <= i < |args| => args[i].value)
  }

  lemma FlagWithMark(a: Argument, tail: string)
    ensures FlagAt(FLAG + Mark(a) + tail, 0) && (FLAG + Mark(a) + tail)[6..] == Mark(a) + tail
  {
    var s := FLAG + Mark(a) + tail;
    assert s[0..6] == FLAG && s[6] == Mark(a)[0];
  }

  lemma WordsBehindSpace(tail: string, i: nat)
    ensures WordAt(" " + tail, i + 1) <==> WordAt(tail, i)
    ensures !WordAt(" " + tail, 0)
  {
    var s := " " + tail;
    if i + 6 <= |tail| {
      assert s[i + 1..i + 7] == tail[i..i + 6];
    }
    if 6 <= |s| {
      assert s[0..6][0] == ' ' && FLAG[0] == '-';
    }
  }

  lemma FoundAt(s: string, k: nat)
    requires k < |s| && WordAt(s, k) && forall j: nat :: j < k ==> !WordAt(s, j)
    ensures FindFrom(s, 0) == Some(k)
  {
    hide WordAt, FindFrom;
  }

  lemma FindBehindSpace(tail: string)
    ensures var k := FindFrom(tail, 0);
      FindFrom(" " + tail, 0) == if k.None? then None else Some(k.value + 1)
  {
    var s, k := " " + tail, FindFrom(tail, 0);
    forall j: nat | j > 0 ensures WordAt(s, j) <==> WordAt(tail, j - 1) {
      WordsBehindSpace(tail, j - 1);
    }
    WordsBehindSpace(tail, 0);
    hide WordAt, FindFrom;
    if k.Some? {
      assert WordAt(s, k.value + 1);
      FoundAt(s, k.value + 1);
    }
  }

  lemma TrimAround(v: string)
    requires v != "" && !IsSpace(v[0]) && TrimEnd(v) == v
    ensures Trim(" " + v) == v && Trim(" " + (v + " ")) == v
  {
    LastIsNoSpace(v);
    LastIsNoSpace(" " + v);
    var s := " " + (v + " ");
    assert s[..|s| - 1] == " " + v;
    assert TrimEnd(" " + v) == " " + v && TrimEnd(s) == " " + v;
    assert (" " + v)[1..] == v;
    assert TrimStartAt(" " + v) == 1;
  }

  /** One turn in the space form, in terms of the next flag in the text behind the space. */
  lemma TurnOnSpace(tail: string)
    requires Trim(" " + tail) != ""
    ensures var k := FindFrom(tail, 0);
      TurnOf(FLAG + " " + tail) ==
        if k.None? then Next(Trim(" " + tail), "")
        else if Trim(" " + tail[..k.value]) == "" then Stop(NeedsValue)
        else Next(Trim(" " + tail[..k.value]), tail[k.value..])
  {
    FlagWithMark(WithSpace(""), tail);
    FindBehindSpace(tail);
    hide FlagAt, TrimEnd, Trim, FindFrom;
    var k := FindFrom(tail, 0);
    if k.Some? {
      assert (" " + tail)[..k.value + 1] == " " + tail[..k.value];
      assert (" " + tail)[k.value + 1..] == tail[k.value..];
    }
  }

  lemma SpacedTurn(v: string, more: string, last: bool)
    requires Sayable(WithSpace(v)) && (!last ==> FlagAt(more, 0))
    ensures TurnOf(FLAG + " " + if last then v else v + " " + more) == Next(v, if last then "" else more)
  {
    TrimAround(v);
    if last {
      NoWordsInside(v);
      TurnOnSpace(v);
      hide FlagAt, TrimEnd, Trim, FindFrom, WordAt, TurnOf;
    } else {
      NextWordIsThePrinted(v, more);
      SplitAtSeparator(v, more);
      assert " " + v <= " " + (v + " " + more);
      NotBlank(" " + (v + " " + more), v);
      TurnOnSpace(v + " " + more);
      hide FlagAt, TrimEnd, Trim, FindFrom, WordAt, TurnOf;
    }
  }

  lemma NoWordsInside(v: string)
    requires Expressible(v)
    ensures FindFrom(v, 0).None?
  {
  }

  lemma NotBlank(after: string, v: string)
    requires v != "" && !IsSpace(v[0]) && " " + v <= after
    ensures Trim(after) != ""
  {
    assert after[1] == v[0];
    assert TrimEndAt(after) >= 2;
    assert TrimEnd(after)[1] == v[0];
    assert TrimStartAt(TrimEnd(after)) <= 1;
  }

  lemma FormsTurn(args: seq<Argument>)
    requires args != [] && Sayable(args[0])
    ensures TurnOf(PrintForms(args)) == Next(args[0].value, PrintForms(args[1..]))
    ensures FlagAt(PrintForms(args), 0)
  {
    var v, last := args[0].value, |args| == 1;
    var more := PrintForms(args[1..]);
    var tail := if last then v else v + " " + more;
    assert PrintForms(args) == FLAG + Mark(args[0]) + tail;
    FlagWithMark(args[0], tail);
    if !last {
      var next := args[1];
      FlagWithMark(next, if |args| == 2 then next.value else next.value + " " + PrintForms(args[1..][1..]));
      assert FlagAt(more, 0);
    }
    hide FlagAt, TrimEnd, Trim, FindFrom, TurnOf, PrintForms;
    if args[0].WithSpace? {
      SpacedTurn(v, more, last);
    } else if last {
      TurnOnFlag(v);
      NoWordsInside(v);
    } else {
      TurnOnFlag(tail);
      NextWordIsThePrinted(v, more);
      SplitAtSeparator(v, more);
      TrimSeparator(v);
    }
  }

  lemma {:induction false} FormsItems(args: seq<Argument>)
    requires forall a :: a in args ==> Sayable(a)
    ensures Items(PrintForms(args)) == Ok(ValuesOf(args))
    decreases |args|
  {
    if args != [] {
      assert args[0] in args;
      FormsTurn(args);
      FormsItems(args[1..]);
      hide TurnOf, PrintForms, FlagAt;
      assert ValuesOf(args) == [args[0].value] + ValuesOf(args[1..]);
    }
  }

  lemma {:induction false} FormsEndInNoSpace(args: seq<Argument>)
    requires args != [] && Sayable(args[|args| - 1])
    ensures var s := PrintForms(args); s != "" && s[0] == '-' && !IsSpace(s[|s| - 1])
  {
    if |args| == 1 {
      LastIsNoSpace(args[0].value);
    } else {
      FormsEndInNoSpace(args[1..]);
    }
  }

  /** Whatever form is chosen for each argument, the parser reads the arguments back. */
  lemma EitherFormParses(args: seq<Argument>)
    requires args != [] && forall a :: a in args ==> Sayable(a)
    ensures Parse(PrintForms(args)) == Ok(ValuesOf(args))
  {
    FormsItems(args);
    assert args[|args| - 1] in args;
    FormsEndInNoSpace(args);
    LastIsNoSpace(PrintForms(args));
    hide PrintForms, Items;
  }
}
