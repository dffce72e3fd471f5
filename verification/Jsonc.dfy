/**
 * The string-safe JSONC reader (src/jsonc.ts).
 *
 * The reference is a lexer: a text splits into string literals, comments and single characters.
 * Stripping is then "drop the comments, and drop a comma whose next significant lexeme closes a
 * bracket". The scanner of the source is proved to compute exactly that.
 */
module Jsonc {
  import opened Text

  const BYTE_ORDER_MARK := '\U{FEFF}'

  datatype Lexeme =
    | Quoted(text: string)   // a string literal, quotes included; unclosed only at the end of the text
    | Comment(text: string)  // `//` up to the line end, or `/*` through `*/`
    | Plain(text: string)    // any other single character

  // ---------- The lexer ----------

  /** How many characters belong to a string literal whose opening quote has just been read. */
  function QuotedLen(s: string): (n: nat)
    ensures n <= |s|
  {
    if s == "" then 0
    else if s[0] == '\\' then if |s| > 1 then 2 + QuotedLen(s[2..]) else 1
    else if s[0] == '"' then 1
    else 1 + QuotedLen(s[1..])
  }

  /** How many characters are left on the current line. */
  function LineLen(s: string): (n: nat)
    ensures n <= |s|
  {
    if s == "" || s[0] == '\n' then 0 else 1 + LineLen(s[1..])
  }

  predicate ClosesBlock(s: string) {
    |s| > 1 && s[0] == '*' && s[1] == '/'
  }

  /** How many characters belong to a block comment whose opening has been read, if it is closed. */
  function BlockLen(s: string): (n: Option<nat>)
    ensures n.Some? ==> 2 <= n.value <= |s|
  {
    if s == "" then None
    else if ClosesBlock(s) then Some(2)
    else match BlockLen(s[1..])
      case None => None
      case Some(n) => Some(n + 1)
  }

  /** The first lexeme; there is none when an unclosed block comment starts here. */
  function First(s: string): (l: Option<Lexeme>)
    requires s != ""
    ensures l.Some? ==> l.value.text != "" && l.value.text <= s
  {
    if s[0] == '"' then Some(Quoted(s[..1 + QuotedLen(s[1..])]))
    else if s[0] == '/' && |s| > 1 && s[1] == '/' then Some(Comment(s[..2 + LineLen(s[2..])]))
    else if s[0] == '/' && |s| > 1 && s[1] == '*' then
      match BlockLen(s[2..])
      case None => None
      case Some(n) => Some(Comment(s[..2 + n]))
    else Some(Plain(s[..1]))
  }

  function Lex(s: string): (ls: Option<seq<Lexeme>>)
    ensures ls.Some? ==> Render(ls.value) == s
  {
    if s == "" then Some([])
    else match First(s)
      case None => None
      case Some(l) =>
        match Lex(s[|l.text|..])
        case None => None
        case Some(ls) => assert l.text + s[|l.text|..] == s; Some([l] + ls)
  }

  function Render(ls: seq<Lexeme>): string {
    if ls == [] then "" else ls[0].text + Render(ls[1..])
  }

  // ---------- What stripping means ----------

  predicate IsSpacing(l: Lexeme) {
    l.Plain? && l.text != "" && IsSpace(l.text[0])
  }

  predicate IsCloser(l: Lexeme) {
    l == Plain("}") || l == Plain("]")
  }

  /** Does the first lexeme that is neither white space nor a comment close a bracket? */
  predicate NextCloses(ls: seq<Lexeme>) {
    ls != [] && (IsCloser(ls[0]) || ((ls[0].Comment? || IsSpacing(ls[0])) && NextCloses(ls[1..])))
  }

  predicate Dropped(ls: seq<Lexeme>)
    requires ls != []
  {
    ls[0].Comment? || (ls[0] == Plain(",") && NextCloses(ls[1..]))
  }

  function Keep(ls: seq<Lexeme>): seq<Lexeme> {
    if ls == [] then []
    else if Dropped(ls) then Keep(ls[1..])
    else [ls[0]] + Keep(ls[1..])
  }

  function WithoutMark(text: string): string {
    if text != "" && text[0] == BYTE_ORDER_MARK then text[1..] else text
  }

  /** What is kept of a text whose byte-order mark is gone; nothing when it does not lex. */
  function Kept(s: string): Option<string> {
    match Lex(s)
    case None => None
    case Some(ls) => Some(Render(Keep(ls)))
  }

  /** The stripped text, or nothing when the reader throws. */
  function Strip(text: string): Option<string> {
    Kept(WithoutMark(text))
  }

  /** The answer of the trailing-comma lookahead; nothing when the text does not lex. */
  function Closes(s: string): Option<bool> {
    match Lex(s)
    case None => None
    case Some(ls) => Some(NextCloses(ls))
  }

  function Prepend(prefix: string, rest: Option<string>): Option<string> {
    match rest
    case None => None
    case Some(r) => Some(prefix + r)
  }

  // ---------- The scanner ----------

  method SkipWhitespace(text: string, from: nat) returns (i: nat)
    requires from <= |text|
    ensures from <= i <= |text|
    ensures forall k :: from <= k < i ==> IsSpace(text[k])
    ensures i < |text| ==> !IsSpace(text[i])
  {
    i := from;
    while i < |text| && IsSpace(text[i])
      invariant from <= i <= |text|
      invariant forall k :: from <= k < i ==> IsSpace(text[k])
    {
      i := i + 1;
    }
  }

  datatype Skip = NoComment | Past(index: nat) | Unterminated

  /** The comment that starts at `from`, as the lexer sees the remaining text. */
  function CommentAt(text: string, from: nat): (r: Skip)
    requires from <= |text|
    ensures r.Past? ==> from < r.index <= |text| && First(text[from..]) == Some(Comment(text[from..r.index]))
  {
    if from == |text| then NoComment
    else match First(text[from..])
      case None => Unterminated
      case Some(l) =>
        if l.Comment? then
          assert text[from..][..|l.text|] == text[from..from + |l.text|];
          Past(from + |l.text|)
        else NoComment
  }

  method SkipLine(text: string, from: nat) returns (i: nat)
    requires from <= |text|
    ensures i == from + LineLen(text[from..])
  {
    i := from;
    while i < |text| && text[i] != '\n'
      invariant from <= i <= |text|
      invariant from + LineLen(text[from..]) == i + LineLen(text[i..])
    {
      assert text[i..][1..] == text[i + 1..];
      i := i + 1;
    }
  }

  function Shift(offset: nat, n: Option<nat>): Option<nat> {
    if n.None? then None else Some(offset + n.value)
  }

  method SkipBlock(text: string, from: nat) returns (end: Option<nat>)
    requires from <= |text|
    ensures end == Shift(from, BlockLen(text[from..]))
  {
    var i := from;
    while i < |text| && !(text[i] == '*' && i + 1 < |text| && text[i + 1] == '/')
      invariant from <= i <= |text|
      invariant Shift(from, BlockLen(text[from..])) == Shift(i, BlockLen(text[i..]))
    {
      assert text[i..][1..] == text[i + 1..];
      i := i + 1;
    }
    return if i + 2 > |text| then None else Some(i + 2);
  }

  method SkipComment(text: string, from: nat) returns (r: Skip)
    requires from <= |text|
    ensures r == CommentAt(text, from)
  {
    if from == |text| || text[from] != '/' || from + 1 == |text| {
      return NoComment;
    }
    assert text[from..][2..] == text[from + 2..];
    if text[from + 1] == '/' {
      var i := SkipLine(text, from + 2);
      return Past(i);
    }
    if text[from + 1] == '*' {
      var end := SkipBlock(text, from + 2);
      return if end.None? then Unterminated else Past(end.value);
    }
    return NoComment;
  }

  lemma PrependEnds(rest: Option<string>, out: string)
    ensures Prepend("", rest) == rest
    ensures Prepend(out, None) == None
    ensures Prepend(out, Kept("")) == Some(out)
  {
    if rest.Some? {
      assert "" + rest.value == rest.value;
    }
    assert out + "" == out;
  }

  lemma PrependTwice(a: string, b: string, rest: Option<string>)
    ensures Prepend(a, Prepend(b, rest)) == Prepend(a + b, rest)
  {
    if rest.Some? {
      assert a + (b + rest.value) == a + b + rest.value;
    }
  }

  /** One lexeme of the main scan. */
  lemma KeptStep(input: string, i: nat, l: Lexeme)
    requires i < |input| && First(input[i..]) == Some(l)
    ensures i + |l.text| <= |input|
    ensures var rest := input[i + |l.text|..];
      Kept(input[i..]) ==
      if l.Comment? || (l == Plain(",") && Closes(rest) == Some(true)) then Kept(rest) else Prepend(l.text, Kept(rest))
  {
    var rest := input[i + |l.text|..];
    assert input[i..][|l.text|..] == rest;
    if Lex(rest).Some? {
      var ls := Lex(rest).value;
      assert ([l] + ls)[1..] == ls;
    }
  }

  /** One lexeme of the lookahead. */
  lemma ClosesStep(input: string, i: nat, l: Lexeme)
    requires i < |input| && First(input[i..]) == Some(l)
    ensures i + |l.text| <= |input|
    ensures var rest := input[i + |l.text|..];
      Closes(input[i..]) ==
      if l.Comment? || IsSpacing(l) then Closes(rest) else if Closes(rest).None? then None else Some(IsCloser(l))
  {
    var rest := input[i + |l.text|..];
    assert input[i..][|l.text|..] == rest;
    if Lex(rest).Some? {
      var ls := Lex(rest).value;
      assert ([l] + ls)[1..] == ls;
    }
  }

  lemma FirstPlain(input: string, i: nat)
    requires i < |input| && input[i] != '"' && CommentAt(input, i).NoComment?
    ensures First(input[i..]) == Some(Plain([input[i]]))
  {
    assert input[i..][..1] == [input[i]];
  }

  lemma {:induction false} ClosesPastSpaces(text: string, from: nat, to: nat)
    requires from <= to <= |text|
    requires forall k :: from <= k < to ==> IsSpace(text[k])
    ensures Closes(text[from..]) == Closes(text[to..])
    decreases |text| - from
  {
    if from < to {
      ClosesPastSpaces(text, from + 1, to);
      FirstPlain(text, from);
      ClosesStep(text, from, Plain([text[from]]));
    }
  }

  lemma UnclosedHere(text: string, at: nat)
    requires at <= |text| && CommentAt(text, at).Unterminated?
    ensures Kept(text[at..]).None? && Closes(text[at..]).None?
  {
  }

  /** A comma, given the lookahead's answer. */
  lemma CommaStep(text: string, at: nat, closes: Option<bool>)
    requires at < |text| && text[at] == ','
    requires closes.None? ==> Closes(text[at + 1..]).None?
    requires closes.Some? ==> Closes(text[at + 1..]).None? || Closes(text[at + 1..]) == closes
    ensures Kept(text[at..]) ==
      match closes
      case None => None
      case Some(true) => Kept(text[at + 1..])
      case Some(false) => Prepend(",", Kept(text[at + 1..]))
  {
    assert text[at..][..1] == ",";
    KeptStep(text, at, Plain(","));
  }

  lemma ClosesHere(text: string, at: nat)
    requires at <= |text| && CommentAt(text, at).NoComment?
    requires at < |text| ==> !IsSpace(text[at])
    ensures Closes(text[at..]).Some? ==>
      Closes(text[at..]).value == (at < |text| && (text[at] == '}' || text[at] == ']'))
  {
    if at < |text| {
      ClosesStep(text, at, First(text[at..]).value);
      if text[at] != '"' {
        FirstPlain(text, at);
      }
    }
  }

  /** The trailing-comma lookahead. It gives up when it runs into an unclosed block comment. */
  method LookPastTrivia(input: string, from: nat) returns (closes: Option<bool>)
    requires from <= |input|
    ensures closes.None? ==> Closes(input[from..]).None?
    ensures closes.Some? ==> Closes(input[from..]).None? || Closes(input[from..]) == closes
  {
    hide Closes, Lex, First, CommentAt;
    var j := SkipWhitespace(input, from);
    ClosesPastSpaces(input, from, j);
    var comment := SkipComment(input, j);
    while comment.Past?
      invariant from <= j <= |input|
      invariant j < |input| ==> !IsSpace(input[j])
      invariant Closes(input[from..]) == Closes(input[j..])
      invariant comment == CommentAt(input, j)
      decreases |input| - j
    {
      ClosesStep(input, j, Comment(input[j..comment.index]));
      var next := SkipWhitespace(input, comment.index);
      ClosesPastSpaces(input, comment.index, next);
      j := next;
      comment := SkipComment(input, j);
    }
    if comment.Unterminated? {
      UnclosedHere(input, j);
      return None;
    }
    ClosesHere(input, j);
    return Some(j < |input| && (input[j] == '}' || input[j] == ']'));
  }

  /** Copies a string literal, escapes included, and stops just past its closing quote. */
  method CopyQuoted(input: string, start: nat) returns (i: nat, copy: string)
    requires start < |input| && input[start] == '"'
    ensures start < i <= |input| && copy == input[start..i]
    ensures First(input[start..]) == Some(Quoted(copy))
  {
    copy := [input[start]];
    i := start + 1;
    var open := true;
    while i < |input| && open
      invariant start + 1 <= i <= |input|
      invariant copy == input[start..i]
      invariant start + 1 + QuotedLen(input[start + 1..]) == i + (if open then QuotedLen(input[i..]) else 0)
      decreases |input| - i
    {
      var inner := input[i];
      assert input[i..][1..] == input[i + 1..];
      copy := copy + [inner];
      i := i + 1;
      if inner == '\\' && i < |input| {
        assert input[i - 1..][2..] == input[i + 1..];
        copy := copy + [input[i]];
        i := i + 1;
      } else if inner == '"' {
        open := false;
      }
    }
    assert input[start..][1..] == input[start + 1..];
    assert input[start..][..i - start] == input[start..i];
  }

  /** One turn of the main loop: consumes at least one character and yields what is kept of it. */
  method ScanStep(input: string, i: nat) returns (next: Option<nat>, piece: string)
    requires i < |input|
    ensures next.None? ==> Kept(input[i..]).None?
    ensures next.Some? ==> i < next.value <= |input| && Kept(input[i..]) == Prepend(piece, Kept(input[next.value..]))
  {
    hide Kept, Closes, Lex, First, CommentAt, Prepend, IsSpace;
    var ch := input[i];
    if ch == '"' {
      var end, literal := CopyQuoted(input, i);
      KeptStep(input, i, Quoted(literal));
      return Some(end), literal;
    }
    var comment := SkipComment(input, i);
    if comment.Unterminated? {
      UnclosedHere(input, i);
      return None, "";
    }
    if comment.Past? {
      KeptStep(input, i, Comment(input[i..comment.index]));
      PrependEnds(Kept(input[comment.index..]), "");
      return Some(comment.index), "";
    }
    if ch == ',' {
      var closes := LookPastTrivia(input, i + 1);
      CommaStep(input, i, closes);
      if closes.None? {
        return None, "";
      }
      if closes.value {
        PrependEnds(Kept(input[i + 1..]), "");
        return Some(i + 1), "";
      }
      return Some(i + 1), ",";
    }
    FirstPlain(input, i);
    KeptStep(input, i, Plain([ch]));
    return Some(i + 1), [ch];
  }

  /** The scanner computes `Strip`: it throws exactly when the text does not lex. */
  method StripJsonc(text: string) returns (result: Option<string>)
    ensures result == Strip(text)
  {
    var input := if text != "" && text[0] == BYTE_ORDER_MARK then text[1..] else text;
    hide Kept, Prepend;
    var out := "";
    var i := 0;
    assert input[0..] == input;
    PrependEnds(Kept(input), "");
    while i < |input|
      invariant 0 <= i <= |input|
      invariant Kept(input) == Prepend(out, Kept(input[i..]))
    {
      var next, piece := ScanStep(input, i);
      PrependEnds(None, out);
      if next.None? {
        return None;
      }
      PrependTwice(out, piece, Kept(input[next.value..]));
      out := out + piece;
      i := next.value;
    }
    assert input[i..] == "";
    PrependEnds(None, out);
    return Some(out);
  }
}
