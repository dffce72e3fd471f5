/**
 * Stripping preserves the meaning of a JSONC text at token level.
 *
 * `Tokens` reads a JSONC text: white space and comments separate tokens. For every text that lexes,
 * the stripped text has the same tokens minus exactly the commas in front of a closing bracket,
 * unless two bare scalars were separated by comments alone; the number of tokens lost that way is
 * counted exactly. Printed documents with freely chosen trivia tie the tokens to what a person wrote.
 */
module JsoncTokens {
  import opened Text
  import opened Jsonc
  import opened JsoncOutput

  datatype Token = Punct(text: string) | Literal(text: string) | Scalar(text: string)

  predicate IsPunct(l: Lexeme) {
    l.Plain? && l.text in {"{", "}", "[", "]", ":", ","}
  }

  predicate IsScalarChar(l: Lexeme) {
    l.Plain? && !IsSpacing(l) && !IsPunct(l)
  }

  predicate StartsScalar(ls: seq<Lexeme>) {
    ls != [] && IsScalarChar(ls[0])
  }

  /** The tokens of a lexed text; a run of adjacent scalar characters is one scalar. */
  function Tokens(ls: seq<Lexeme>): (ts: seq<Token>)
    ensures StartsScalar(ls) ==> ts != [] && ts[0].Scalar?
  {
    if ls == [] then []
    else
      var rest := Tokens(ls[1..]);
      var l := ls[0];
      if l.Quoted? then [Literal(l.text)] + rest
      else if IsPunct(l) then [Punct(l.text)] + rest
      else if !IsScalarChar(l) then rest
      else if StartsScalar(ls[1..]) then [Scalar(l.text + rest[0].text)] + rest[1..]
      else [Scalar(l.text)] + rest
  }

  predicate ClosesNext(ts: seq<Token>) {
    ts != [] && (ts[0] == Punct("}") || ts[0] == Punct("]"))
  }

  /** The same tokens without the commas whose next token closes a bracket. */
  function WithoutTrailingCommas(ts: seq<Token>): seq<Token> {
    if ts == [] then []
    else if ts[0] == Punct(",") && ClosesNext(ts[1..]) then WithoutTrailingCommas(ts[1..])
    else [ts[0]] + WithoutTrailingCommas(ts[1..])
  }

  predicate ScalarAfterComments(ls: seq<Lexeme>) {
    ls != [] && if ls[0].Comment? then ScalarAfterComments(ls[1..]) else IsScalarChar(ls[0])
  }

  /** How many pairs of scalars are separated by comments alone, and so run together once those go. */
  function Glued(ls: seq<Lexeme>): nat {
    if ls == [] then 0
    else
      (if IsScalarChar(ls[0]) && !StartsScalar(ls[1..]) && ScalarAfterComments(ls[1..]) then 1 else 0)
      + Glued(ls[1..])
  }

  lemma {:induction false} KeptStartsScalar(ls: seq<Lexeme>)
    ensures StartsScalar(Keep(ls)) <==> ScalarAfterComments(ls)
  {
    if ls != [] && Dropped(ls) {
      if ls[0].Comment? {
        KeptStartsScalar(ls[1..]);
      } else {
        KeptAfterTrailingComma(ls[1..]);
      }
    }
  }

  lemma {:induction false} NextClosesIsClosesNext(ls: seq<Lexeme>)
    ensures NextCloses(ls) <==> ClosesNext(Tokens(ls))
  {
    if ls != [] {
      NextClosesIsClosesNext(ls[1..]);
    }
  }

  lemma ConsTokens(l: Lexeme, ls: seq<Lexeme>)
    ensures var rest := Tokens(ls);
      Tokens([l] + ls) ==
      if l.Quoted? then [Literal(l.text)] + rest
      else if IsPunct(l) then [Punct(l.text)] + rest
      else if !IsScalarChar(l) then rest
      else if StartsScalar(ls) then [Scalar(l.text + rest[0].text)] + rest[1..]
      else [Scalar(l.text)] + rest
  {
    assert ([l] + ls)[1..] == ls;
  }

  lemma ConsWithoutCommas(t: Token, ts: seq<Token>)
    ensures WithoutTrailingCommas([t] + ts) ==
      if t == Punct(",") && ClosesNext(ts) then WithoutTrailingCommas(ts) else [t] + WithoutTrailingCommas(ts)
  {
    assert ([t] + ts)[1..] == ts;
  }

  /** Token for token: nothing is lost but the trailing commas and one token per glued pair of scalars. */
  lemma {:induction false} KeepPreservesTokens(ls: seq<Lexeme>)
    ensures |Tokens(Keep(ls))| + Glued(ls) == |WithoutTrailingCommas(Tokens(ls))|
    ensures Glued(ls) == 0 ==> Tokens(Keep(ls)) == WithoutTrailingCommas(Tokens(ls))
  {
    if ls != [] {
      KeepPreservesTokens(ls[1..]);
      if Dropped(ls) {
        TokensPastDropped(ls);
      } else if IsScalarChar(ls[0]) {
        ScalarStep(ls);
      } else {
        OtherStep(ls);
      }
    }
  }

  lemma TokensPastDropped(ls: seq<Lexeme>)
    requires ls != [] && Dropped(ls)
    ensures WithoutTrailingCommas(Tokens(ls)) == WithoutTrailingCommas(Tokens(ls[1..]))
    ensures Glued(ls) == Glued(ls[1..])
  {
    if !ls[0].Comment? {
      NextClosesIsClosesNext(ls[1..]);
      ConsWithoutCommas(Punct(","), Tokens(ls[1..]));
    }
  }

  lemma OtherStep(ls: seq<Lexeme>)
    requires ls != [] && !Dropped(ls) && !IsScalarChar(ls[0])
    requires |Tokens(Keep(ls[1..]))| + Glued(ls[1..]) == |WithoutTrailingCommas(Tokens(ls[1..]))|
    requires Glued(ls[1..]) == 0 ==> Tokens(Keep(ls[1..])) == WithoutTrailingCommas(Tokens(ls[1..]))
    ensures |Tokens(Keep(ls))| + Glued(ls) == |WithoutTrailingCommas(Tokens(ls))|
    ensures Glued(ls) == 0 ==> Tokens(Keep(ls)) == WithoutTrailingCommas(Tokens(ls))
  {
    var rest := Tokens(ls[1..]);
    ConsTokens(ls[0], Keep(ls[1..]));
    if ls[0].Quoted? {
      ConsWithoutCommas(Literal(ls[0].text), rest);
    } else if IsPunct(ls[0]) {
      NextClosesIsClosesNext(ls[1..]);
      ConsWithoutCommas(Punct(ls[0].text), rest);
    }
  }

  lemma ScalarStep(ls: seq<Lexeme>)
    requires ls != [] && !Dropped(ls) && IsScalarChar(ls[0])
    requires |Tokens(Keep(ls[1..]))| + Glued(ls[1..]) == |WithoutTrailingCommas(Tokens(ls[1..]))|
    requires Glued(ls[1..]) == 0 ==> Tokens(Keep(ls[1..])) == WithoutTrailingCommas(Tokens(ls[1..]))
    ensures |Tokens(Keep(ls))| + Glued(ls) == |WithoutTrailingCommas(Tokens(ls))|
    ensures Glued(ls) == 0 ==> Tokens(Keep(ls)) == WithoutTrailingCommas(Tokens(ls))
  {
    var rest := Tokens(ls[1..]);
    var kept := Keep(ls[1..]);
    KeptStartsScalar(ls[1..]);
    ConsTokens(ls[0], kept);
    if StartsScalar(ls[1..]) {
      var merged := Scalar(ls[0].text + rest[0].text);
      assert rest == [rest[0]] + rest[1..];
      ConsWithoutCommas(rest[0], rest[1..]);
      ConsWithoutCommas(merged, rest[1..]);
    } else {
      ConsWithoutCommas(Scalar(ls[0].text), rest);
    }
  }

  /** For every text: the tokens survive exactly when no two scalars are separated by comments alone. */
  lemma TokensSurviveExactlyUnlessGlued(text: string)
    requires Strip(text).Some?
    ensures Lex(Strip(text).value).Some?
    ensures Tokens(Lex(Strip(text).value).value) == WithoutTrailingCommas(Tokens(Lex(WithoutMark(text)).value))
      <==> Glued(Lex(WithoutMark(text)).value) == 0
  {
    KeptReadsBack(WithoutMark(text));
    KeepPreservesTokens(Lex(WithoutMark(text)).value);
  }

  // ---------- Printed documents ----------

  datatype Trivia = Space(c: char) | LineComment(body: string) | BlockComment(body: string)

  /** Tokens, each with the trivia in front of it, the trivia at the end, and a line comment no line break ends. */
  datatype Document =
    | End(trivia: seq<Trivia>, lastComment: Option<string>)
    | Item(trivia: seq<Trivia>, token: Token, next: Document)

  function TriviaText(t: Trivia): string {
    match t
    case Space(c) => [c]
    case LineComment(body) => "//" + body + "\n"
    case BlockComment(body) => "/*" + body + "*/"
  }

  predicate GoodTrivia(t: Trivia) {
    match t
    case Space(c) => IsSpace(c)
    case LineComment(body) => '\n' !in body
    case BlockComment(body) => forall k :: 0 <= k < |body| - 1 ==> !(body[k] == '*' && body[k + 1] == '/')
  }

  /** What follows the opening quote of a string literal, section 7 of RFC 8259 (any escape is accepted). */
  predicate StringBody(b: string) {
    b != "" &&
    if b[0] == '\\' then |b| >= 2 && StringBody(b[2..])
    else if b[0] == '"' then |b| == 1
    else StringBody(b[1..])
  }

  predicate GoodToken(t: Token) {
    match t
    case Punct(text) => text in {"{", "}", "[", "]", ":", ","}
    case Literal(text) => text != "" && text[0] == '"' && StringBody(text[1..])
    case Scalar(text) => text != "" && ScalarText(text)
  }

  predicate GoodDocument(d: Document) {
    && (forall t :: t in d.trivia ==> GoodTrivia(t))
    && (d.Item? ==> GoodToken(d.token) && GoodDocument(d.next))
    && (d.End? && d.lastComment.Some? ==> '\n' !in d.lastComment.value)
  }

  /** Two scalars in a row, as no JSON grammar has them. */
  predicate AdjacentScalars(d: Document) {
    d.Item? && ((d.token.Scalar? && d.next.Item? && d.next.token.Scalar?) || AdjacentScalars(d.next))
  }

  function PrintTrivia(ts: seq<Trivia>): string {
    if ts == [] then "" else TriviaText(ts[0]) + PrintTrivia(ts[1..])
  }

  function LastText(lastComment: Option<string>): string {
    if lastComment.None? then "" else "//" + lastComment.value
  }

  function Print(d: Document): string {
    match d
    case End(trivia, lastComment) => PrintTrivia(trivia) + LastText(lastComment)
    case Item(trivia, token, next) => PrintTrivia(trivia) + (token.text + Print(next))
  }

  function TokensOf(d: Document): seq<Token> {
    match d
    case End(_, _) => []
    case Item(_, token, next) => [token] + TokensOf(next)
  }

  /** What the printer must leave unchanged about the text that follows. */
  ghost predicate SameTokens(s: string, rest: string) {
    && Lex(rest).Some? && Lex(s).Some?
    && Tokens(Lex(s).value) == Tokens(Lex(rest).value)
    && Glued(Lex(s).value) == Glued(Lex(rest).value)
    && !StartsScalar(Lex(s).value)
    && (ScalarAfterComments(Lex(s).value) ==> ScalarAfterComments(Lex(rest).value))
  }

  lemma {:induction false} LineLenOf(body: string, after: string)
    requires '\n' !in body
    ensures LineLen(body + "\n" + after) == |body|
  {
    var s := body + "\n" + after;
    if body != "" {
      LineLenOf(body[1..], after);
      assert s[1..] == body[1..] + "\n" + after;
    }
  }

  lemma {:induction false} BlockLenOf(body: string, after: string)
    requires forall k :: 0 <= k < |body| - 1 ==> !(body[k] == '*' && body[k + 1] == '/')
    ensures BlockLen(body + "*/" + after) == Some(|body| + 2)
  {
    var s := body + "*/" + after;
    if body != "" {
      forall k | 0 <= k < |body[1..]| - 1 ensures !(body[1..][k] == '*' && body[1..][k + 1] == '/') {
        assert body[1..][k] == body[k + 1] && body[1..][k + 1] == body[k + 2];
      }
      BlockLenOf(body[1..], after);
      assert s[1..] == body[1..] + "*/" + after;
      assert s[1] == if |body| > 1 then body[1] else '*';
    }
  }

  /** One lexeme in front of a text that lexes. */
  lemma LexCons(l: Lexeme, rest: string)
    requires l.text != "" && First(l.text + rest) == Some(l) && Lex(rest).Some?
    ensures Lex(l.text + rest) == Some([l] + Lex(rest).value)
  {
    assert (l.text + rest)[|l.text|..] == rest;
  }

  lemma SeparatorStep(l: Lexeme, rest: string)
    requires l.text != "" && First(l.text + rest) == Some(l) && Lex(rest).Some?
    requires l.Comment? || IsSpacing(l)
    ensures SameTokens(l.text + rest, rest)
  {
    LexCons(l, rest);
    assert ([l] + Lex(rest).value)[1..] == Lex(rest).value;
    ConsTokens(l, Lex(rest).value);
  }

  lemma SpaceStep(c: char, rest: string)
    requires IsSpace(c) && Lex(rest).Some?
    ensures SameTokens([c] + rest, rest)
  {
    PlainReadsBack(c, rest);
    SeparatorStep(Plain([c]), rest);
  }

  lemma LineCommentStep(body: string, rest: string)
    requires '\n' !in body && Lex("\n" + rest).Some?
    ensures SameTokens("//" + body + ("\n" + rest), "\n" + rest)
  {
    hide Lex, Tokens, Glued, ScalarAfterComments;
    var after := "\n" + rest;
    var l := Comment("//" + body);
    LineLenOf(body, rest);
    assert (l.text + after)[2..] == body + "\n" + rest;
    assert (l.text + after)[..2 + |body|] == l.text;
    SeparatorStep(l, after);
  }

  lemma BlockCommentStep(body: string, rest: string)
    requires GoodTrivia(BlockComment(body)) && Lex(rest).Some?
    ensures SameTokens("/*" + body + "*/" + rest, rest)
  {
    hide Lex, Tokens, Glued, ScalarAfterComments;
    var l := Comment("/*" + body + "*/");
    BlockLenOf(body, rest);
    assert (l.text + rest)[2..] == body + "*/" + rest;
    assert (l.text + rest)[..|body| + 4] == l.text;
    SeparatorStep(l, rest);
  }

  lemma SameTokensTransitive(a: string, b: string, c: string)
    requires SameTokens(a, b) && SameTokens(b, c)
    ensures SameTokens(a, c)
  {
  }

  lemma TriviaIsInvisible(t: Trivia, rest: string)
    requires GoodTrivia(t) && Lex(rest).Some?
    ensures SameTokens(TriviaText(t) + rest, rest)
  {
    hide Lex, SameTokens;
    match t
    case Space(c) =>
      SpaceStep(c, rest);
    case LineComment(body) =>
      SpaceStep('\n', rest);
      SameTokensLex("\n" + rest, rest);
      LineCommentStep(body, rest);
      assert TriviaText(t) + rest == "//" + body + ("\n" + rest);
      SameTokensTransitive(TriviaText(t) + rest, "\n" + rest, rest);
    case BlockComment(body) =>
      BlockCommentStep(body, rest);
  }

  lemma SameTokensLex(s: string, rest: string)
    requires SameTokens(s, rest)
    ensures Lex(s).Some?
  {
  }

  lemma {:induction false} TriviaRunIsInvisible(ts: seq<Trivia>, rest: string)
    requires (forall t :: t in ts ==> GoodTrivia(t)) && Lex(rest).Some?
    ensures ts == [] ==> PrintTrivia(ts) + rest == rest
    ensures ts != [] ==> SameTokens(PrintTrivia(ts) + rest, rest)
  {
    hide Lex, SameTokens, TriviaText, GoodTrivia;
    if ts != [] {
      TriviaRunIsInvisible(ts[1..], rest);
      var tail := PrintTrivia(ts[1..]) + rest;
      assert PrintTrivia(ts) + rest == TriviaText(ts[0]) + tail;
      if ts[1..] == [] {
        TriviaIsInvisible(ts[0], tail);
      } else {
        SameTokensLex(tail, rest);
        TriviaIsInvisible(ts[0], tail);
        SameTokensTransitive(PrintTrivia(ts) + rest, tail, rest);
      }
    }
  }

  lemma {:induction false} StringBodyLen(b: string, after: string)
    requires StringBody(b)
    ensures QuotedLen(b + after) == |b|
  {
    var s := b + after;
    if b[0] == '\\' {
      StringBodyLen(b[2..], after);
      assert s[2..] == b[2..] + after;
    } else if b[0] != '"' {
      StringBodyLen(b[1..], after);
      assert s[1..] == b[1..] + after;
    }
  }

  lemma LiteralFirst(text: string, rest: string)
    requires GoodToken(Literal(text))
    ensures First(text + rest) == Some(Quoted(text))
  {
    var body := text[1..];
    StringBodyLen(body, rest);
    hide QuotedLen, StringBody;
    assert (text + rest)[1..] == body + rest;
    assert (text + rest)[..1 + |body|] == text;
  }

  lemma LiteralStep(text: string, rest: string)
    requires GoodToken(Literal(text)) && Lex(rest).Some?
    ensures Lex(text + rest) == Some([Quoted(text)] + Lex(rest).value)
  {
    LiteralFirst(text, rest);
    LexCons(Quoted(text), rest);
  }

  lemma PunctStep(text: string, rest: string)
    requires GoodToken(Punct(text)) && Lex(rest).Some?
    ensures Lex(text + rest) == Some([Plain(text)] + Lex(rest).value)
  {
    assert text == [text[0]];
    PlainReadsBack(text[0], rest);
    LexCons(Plain(text), rest);
  }

  predicate ScalarText(text: string) {
    forall c :: c in text ==> !IsSpace(c) && c !in "{}[]:,\"/"
  }

  /** `text` is printed in front of `rest` as one scalar. */
  ghost predicate PrintsScalar(text: string, rest: string) {
    && Lex(rest).Some? && Lex(text + rest).Some? && StartsScalar(Lex(text + rest).value)
    && Tokens(Lex(text + rest).value) == [Scalar(text)] + Tokens(Lex(rest).value)
    && Glued(Lex(text + rest).value) == Glued(Lex(rest).value) + if ScalarAfterComments(Lex(rest).value) then 1 else 0
  }

  lemma ScalarCharLex(c: char, tail: string)
    requires ScalarText([c]) && Lex(tail).Some?
    ensures Lex([c] + tail) == Some([Plain([c])] + Lex(tail).value)
    ensures IsScalarChar(Plain([c]))
  {
    assert c in [c];
    PlainReadsBack(c, tail);
    LexCons(Plain([c]), tail);
  }

  lemma ScalarLast(c: char, rest: string)
    requires ScalarText([c]) && Lex(rest).Some? && !StartsScalar(Lex(rest).value)
    ensures PrintsScalar([c], rest)
  {
    ScalarCharLex(c, rest);
    hide Lex;
    ConsTokens(Plain([c]), Lex(rest).value);
    assert ([Plain([c])] + Lex(rest).value)[1..] == Lex(rest).value;
  }

  lemma ScalarMore(c: char, text: string, rest: string)
    requires ScalarText([c]) && PrintsScalar(text, rest)
    ensures PrintsScalar([c] + text, rest)
  {
    var tail := text + rest;
    ScalarCharLex(c, tail);
    hide Lex;
    assert [c] + text + rest == [c] + tail;
    ConsTokens(Plain([c]), Lex(tail).value);
    assert ([Plain([c])] + Lex(tail).value)[1..] == Lex(tail).value;
  }

  lemma {:induction false} ScalarRunStep(text: string, rest: string)
    requires text != "" && ScalarText(text) && Lex(rest).Some? && !StartsScalar(Lex(rest).value)
    ensures PrintsScalar(text, rest)
  {
    hide Lex, PrintsScalar;
    var c := text[0];
    assert c in text;
    if |text| == 1 {
      assert text == [c];
      ScalarLast(c, rest);
    } else {
      assert text == [c] + text[1..];
      ScalarRunStep(text[1..], rest);
      ScalarMore(c, text[1..], rest);
    }
  }

  lemma {:induction false} LineLenAtEnd(body: string)
    requires '\n' !in body
    ensures LineLen(body) == |body|
  {
    if body != "" {
      LineLenAtEnd(body[1..]);
    }
  }

  /** A line comment that ends with the text is one comment and no token. */
  lemma LastCommentLexes(lastComment: Option<string>)
    requires lastComment.Some? ==> '\n' !in lastComment.value
    ensures var text := LastText(lastComment);
      && Lex(text).Some? && Lex(text).value == (if lastComment.None? then [] else [Comment(text)])
      && Tokens(Lex(text).value) == [] && Glued(Lex(text).value) == 0
      && !ScalarAfterComments(Lex(text).value) && !StartsScalar(Lex(text).value)
  {
    var text := LastText(lastComment);
    if lastComment.Some? {
      LineLenAtEnd(lastComment.value);
      assert text[2..] == lastComment.value && text[..|text|] == text;
      assert First(text) == Some(Comment(text));
      assert text[|text|..] == "";
      assert Lex("") == Some([]);
      assert [Comment(text)][1..] == [];
    }
  }

  /** Printing then reading gives back the document's tokens. */
  lemma {:induction false} PrintedTokens(d: Document)
    requires GoodDocument(d) && !AdjacentScalars(d)
    ensures Lex(Print(d)).Some?
    ensures Tokens(Lex(Print(d)).value) == TokensOf(d)
    ensures Glued(Lex(Print(d)).value) == 0
    ensures ScalarAfterComments(Lex(Print(d)).value) || StartsScalar(Lex(Print(d)).value) ==> d.Item? && d.token.Scalar?
  {
    match d
    case End(trivia, lastComment) =>
      LastCommentLexes(lastComment);
      TriviaRunIsInvisible(trivia, LastText(lastComment));
    case Item(trivia, token, next) =>
      PrintedTokens(next);
      var rest := Print(next);
      TokenStep(token, rest, next.Item? && next.token.Scalar?);
      TriviaRunIsInvisible(trivia, token.text + rest);
  }

  lemma TokenStep(token: Token, rest: string, scalarNext: bool)
    requires GoodToken(token) && Lex(rest).Some?
    requires ScalarAfterComments(Lex(rest).value) || StartsScalar(Lex(rest).value) ==> scalarNext
    requires !(token.Scalar? && scalarNext)
    ensures Lex(token.text + rest).Some?
    ensures var ls := Lex(token.text + rest).value;
      && Tokens(ls) == [token] + Tokens(Lex(rest).value)
      && Glued(ls) == Glued(Lex(rest).value)
      && (ScalarAfterComments(ls) || StartsScalar(ls) ==> token.Scalar?)
  {
    var ls := Lex(rest).value;
    match token
    case Scalar(text) =>
      ScalarRunStep(text, rest);
    case Literal(text) =>
      LiteralStep(text, rest);
      assert ([Quoted(text)] + ls)[1..] == ls;
    case Punct(text) =>
      PunctStep(text, rest);
      assert ([Plain(text)] + ls)[1..] == ls;
  }

  function WithoutFirstTrivia(d: Document): Document
    requires d.trivia != []
  {
    if d.End? then End(d.trivia[1..], d.lastComment) else Item(d.trivia[1..], d.token, d.next)
  }

  lemma TokenIsNoMark(t: Token)
    requires GoodToken(t)
    ensures t.text != "" && t.text[0] != BYTE_ORDER_MARK
  {
    assert t.text[0] in t.text;
    assert IsSpace(BYTE_ORDER_MARK);
  }

  lemma PrintTriviaSplit(ts: seq<Trivia>, rest: string)
    requires ts != []
    ensures PrintTrivia(ts) + rest == TriviaText(ts[0]) + (PrintTrivia(ts[1..]) + rest)
  {
  }

  /** A leading byte-order mark is white space in front of the first token. */
  lemma MarkIsTrivia(d: Document)
    requires GoodDocument(d) && Print(d) != "" && Print(d)[0] == BYTE_ORDER_MARK
    ensures d.trivia != [] && Print(d)[1..] == Print(WithoutFirstTrivia(d))
  {
    hide GoodToken;
    var rest := if d.Item? then d.token.text + Print(d.next) else LastText(d.lastComment);
    assert Print(d) == PrintTrivia(d.trivia) + rest;
    if d.Item? {
      TokenIsNoMark(d.token);
    }
    if d.trivia != [] {
      var t := d.trivia[0];
      assert t in d.trivia;
      PrintTriviaSplit(d.trivia, rest);
      assert TriviaText(t)[0] == BYTE_ORDER_MARK;
      assert TriviaText(t) == [BYTE_ORDER_MARK];
    }
  }

  /**
   * Whatever trivia surrounds its tokens, a document without adjacent scalars is stripped to a text
   * with the same tokens minus exactly the commas whose next token closes a bracket.
   */
  lemma StrippedDocument(d: Document)
    requires GoodDocument(d) && !AdjacentScalars(d)
    ensures Strip(Print(d)).Some? && Lex(Strip(Print(d)).value).Some?
    ensures Tokens(Lex(Strip(Print(d)).value).value) == WithoutTrailingCommas(TokensOf(d))
  {
    var text := Print(d);
    if text != "" && text[0] == BYTE_ORDER_MARK {
      MarkIsTrivia(d);
      assert forall t :: t in d.trivia[1..] ==> t in d.trivia;
      PrintedTokens(WithoutFirstTrivia(d));
    } else {
      PrintedTokens(d);
    }
    TokensSurviveExactlyUnlessGlued(text);
  }
}
