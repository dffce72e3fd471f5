/**
 * What the stripped text looks like to a reader: it lexes to exactly the kept lexemes, so comments
 * are gone, string literals are untouched and nothing new is glued together. From that follow the
 * exact conditions under which stripping throws, changes nothing, and is idempotent.
 */
module JsoncOutput {
  import opened Text
  import opened Jsonc

  // ---------- The output lexes to the kept lexemes ----------

  /** A string literal that closes before the end of the text does not care what follows it. */
  lemma {:induction false} QuotedIsLocal(s: string, after: string)
    requires QuotedLen(s) < |s|
    ensures QuotedLen(s[..QuotedLen(s)] + after) == QuotedLen(s)
  {
    var n := QuotedLen(s);
    var t := s[..n] + after;
    if s[0] == '\\' {
      QuotedIsLocal(s[2..], after);
      assert t[2..] == s[2..][..n - 2] + after;
    } else if s[0] != '"' {
      QuotedIsLocal(s[1..], after);
      assert t[1..] == s[1..][..n - 1] + after;
    }
  }

  /** What is kept after a dropped comma starts with white space or the closing bracket. */
  lemma {:induction false} KeptAfterTrailingComma(ls: seq<Lexeme>)
    requires NextCloses(ls)
    ensures Keep(ls) != [] && (IsSpacing(Keep(ls)[0]) || IsCloser(Keep(ls)[0]))
  {
    if ls[0].Comment? {
      KeptAfterTrailingComma(ls[1..]);
    }
  }

  lemma RenderHead(l: Lexeme, ls: seq<Lexeme>)
    ensures Render([l] + ls) == l.text + Render(ls)
  {
    assert ([l] + ls)[1..] == ls;
  }

  lemma LexTail(s: string)
    requires s != "" && Lex(s).Some?
    ensures First(s).Some?
    ensures var l := First(s).value; var rest := s[|l.text|..];
      Lex(rest).Some? && Lex(s).value == [l] + Lex(rest).value && Lex(s).value[1..] == Lex(rest).value
  {
    var l := First(s).value;
    assert ([l] + Lex(s[|l.text|..]).value)[1..] == Lex(s[|l.text|..]).value;
  }

  /** No comment opens where the character `/` is followed by what stripping keeps of the rest. */
  lemma SlashStaysPlain(s: string)
    requires s != "" && s[0] == '/' && Lex(s).Some? && First(s).value.Plain?
    ensures var out := Render(Keep(Lex(s[1..]).value)); out == "" || (out[0] != '/' && out[0] != '*')
  {
    LexTail(s);
    var rest := s[1..];
    if rest != "" {
      LexTail(rest);
      var ls := Lex(rest).value;
      assert rest[0] == s[1] != '/';
      if Dropped(ls) {
        KeptAfterTrailingComma(ls[1..]);
        assert Keep(ls) == Keep(ls[1..]);
      } else {
        assert Keep(ls)[0].text[0] == rest[0];
      }
    }
  }

  lemma QuotedReadsBack(s: string, after: string)
    requires s != "" && s[0] == '"'
    requires |First(s).value.text| == |s| ==> after == ""
    ensures var l := First(s).value; First(l.text + after) == Some(l)
  {
    var l := First(s).value;
    if |l.text| == |s| {
      assert l.text + after == s;
    } else {
      var n := QuotedLen(s[1..]);
      QuotedIsLocal(s[1..], after);
      assert (l.text + after)[1..] == s[1..][..n] + after;
      assert (l.text + after)[..1 + n] == l.text;
    }
  }

  lemma PlainReadsBack(c: char, after: string)
    requires c != '"'
    requires c == '/' ==> after == "" || (after[0] != '/' && after[0] != '*')
    ensures First([c] + after) == Some(Plain([c]))
  {
    assert ([c] + after)[..1] == [c];
  }

  /** A kept lexeme is read back as itself in front of what is kept of the rest. */
  lemma KeptLexemeReadsBack(s: string)
    requires s != "" && Lex(s).Some? && !First(s).value.Comment?
    ensures var l := First(s).value; First(l.text + Render(Keep(Lex(s[|l.text|..]).value))) == Some(l)
  {
    LexTail(s);
    var l := First(s).value;
    var out := Render(Keep(Lex(s[|l.text|..]).value));
    if l.Quoted? {
      QuotedReadsBack(s, out);
    } else {
      if s[0] == '/' {
        SlashStaysPlain(s);
      }
      assert l.text == [s[0]];
      PlainReadsBack(s[0], out);
    }
  }

  lemma {:induction false} KeptReadsBack(s: string)
    requires Lex(s).Some?
    ensures Lex(Render(Keep(Lex(s).value))) == Some(Keep(Lex(s).value))
    decreases |s|
  {
    if s != "" {
      LexTail(s);
      var l := First(s).value;
      var rest := s[|l.text|..];
      KeptReadsBack(rest);
      if !Dropped(Lex(s).value) {
        var kept := Keep(Lex(rest).value);
        KeptLexemeReadsBack(s);
        RenderHead(l, kept);
        assert (l.text + Render(kept))[|l.text|..] == Render(kept);
      }
    }
  }

  /** The string literals of a lexed text, in order, character for character. */
  function Literals(ls: seq<Lexeme>): seq<string> {
    if ls == [] then []
    else if ls[0].Quoted? then [ls[0].text] + Literals(ls[1..])
    else Literals(ls[1..])
  }

  lemma {:induction false} KeepKeepsLiterals(ls: seq<Lexeme>)
    ensures Literals(Keep(ls)) == Literals(ls)
    ensures forall l :: l in Keep(ls) ==> !l.Comment?
  {
    if ls != [] {
      KeepKeepsLiterals(ls[1..]);
      assert ([ls[0]] + Keep(ls[1..]))[1..] == Keep(ls[1..]);
    }
  }

  /** The main result on the output: no comment is left, and every string literal survives unchanged. */
  lemma OutputHasNoComments(text: string)
    requires Strip(text).Some?
    ensures var before := Lex(WithoutMark(text)).value; var after := Lex(Strip(text).value);
      && after == Some(Keep(before))
      && Literals(after.value) == Literals(before)
      && forall l :: l in after.value ==> !l.Comment?
  {
    KeptReadsBack(WithoutMark(text));
    KeepKeepsLiterals(Lex(WithoutMark(text)).value);
  }

  // ---------- When stripping throws ----------

  /** The lexemes `ls` are read off the front of `s`. */
  ghost predicate ReadsOff(s: string, ls: seq<Lexeme>) {
    ls == [] || (s != "" && First(s) == Some(ls[0]) && ReadsOff(s[|ls[0].text|..], ls[1..]))
  }

  /** The text opens a block comment that nothing closes. */
  predicate UnclosedBlock(t: string) {
    |t| >= 2 && t[0] == '/' && t[1] == '*' && forall k :: 2 <= k < |t| - 1 ==> !(t[k] == '*' && t[k + 1] == '/')
  }

  lemma {:induction false} BlockLenMeaning(s: string)
    ensures BlockLen(s).None? <==> forall k :: 0 <= k < |s| - 1 ==> !(s[k] == '*' && s[k + 1] == '/')
  {
    if s != "" {
      BlockLenMeaning(s[1..]);
      if forall k :: 0 <= k < |s| - 1 ==> !(s[k] == '*' && s[k + 1] == '/') {
        forall k | 0 <= k < |s[1..]| - 1 ensures !(s[1..][k] == '*' && s[1..][k + 1] == '/') {
          assert s[1..][k] == s[k + 1] && s[1..][k + 1] == s[k + 2];
        }
      } else {
        var k :| 0 <= k < |s| - 1 && s[k] == '*' && s[k + 1] == '/';
        if k > 0 {
          assert s[1..][k - 1] == '*' && s[1..][k] == '/';
        }
      }
    }
  }

  lemma FirstMeaning(s: string)
    requires s != ""
    ensures First(s).None? <==> UnclosedBlock(s)
  {
    if |s| >= 2 {
      var t := s[2..];
      BlockLenMeaning(t);
      if forall k :: 0 <= k < |t| - 1 ==> !(t[k] == '*' && t[k + 1] == '/') {
        forall k | 2 <= k < |s| - 1 ensures !(s[k] == '*' && s[k + 1] == '/') {
          assert t[k - 2] == s[k] && t[k - 1] == s[k + 1];
        }
      } else {
        var k :| 0 <= k < |t| - 1 && t[k] == '*' && t[k + 1] == '/';
        assert s[k + 2] == '*' && s[k + 3] == '/';
      }
    }
  }

  lemma {:induction false} WitnessUnclosed(s: string) returns (ls: seq<Lexeme>)
    requires Lex(s).None?
    ensures ReadsOff(s, ls) && |Render(ls)| <= |s| && UnclosedBlock(s[|Render(ls)|..])
    decreases |s|
  {
    FirstMeaning(s);
    if First(s).None? {
      ls := [];
    } else {
      var l := First(s).value;
      var rest := s[|l.text|..];
      var tail := WitnessUnclosed(rest);
      ls := [l] + tail;
      assert ls[1..] == tail;
      assert s[|Render(ls)|..] == rest[|Render(tail)|..];
    }
  }

  lemma {:induction false} UnclosedDoesNotLex(s: string, ls: seq<Lexeme>)
    requires ReadsOff(s, ls) && |Render(ls)| <= |s| && UnclosedBlock(s[|Render(ls)|..])
    ensures Lex(s).None?
    decreases |ls|
  {
    if ls == [] {
      assert s[0..] == s;
      FirstMeaning(s);
    } else {
      var rest := s[|ls[0].text|..];
      assert s[|Render(ls)|..] == rest[|Render(ls[1..])|..];
      UnclosedDoesNotLex(rest, ls[1..]);
    }
  }

  /** Stripping throws exactly when, after some whole lexemes, a block comment opens that is never closed. */
  lemma ThrowsExactlyOnUnclosedBlock(text: string)
    ensures Strip(text).None? <==>
      exists ls :: ReadsOff(WithoutMark(text), ls) && |Render(ls)| <= |WithoutMark(text)|
        && UnclosedBlock(WithoutMark(text)[|Render(ls)|..])
  {
    var s := WithoutMark(text);
    if Lex(s).None? {
      var ls := WitnessUnclosed(s);
    }
    if ls :| ReadsOff(s, ls) && |Render(ls)| <= |s| && UnclosedBlock(s[|Render(ls)|..]) {
      UnclosedDoesNotLex(s, ls);
    }
  }

  // ---------- When stripping changes nothing ----------

  /** No comment, and no comma in front of a closing bracket. */
  predicate NothingToDrop(ls: seq<Lexeme>) {
    ls == [] || (!Dropped(ls) && NothingToDrop(ls[1..]))
  }

  predicate NonEmpty(ls: seq<Lexeme>) {
    forall l :: l in ls ==> l.text != ""
  }

  lemma {:induction false} LexemesAreNonEmpty(s: string)
    requires Lex(s).Some?
    ensures NonEmpty(Lex(s).value)
    decreases |s|
  {
    if s != "" {
      LexTail(s);
      LexemesAreNonEmpty(s[|First(s).value.text|..]);
    }
  }

  lemma {:induction false} KeepShortens(ls: seq<Lexeme>)
    requires NonEmpty(ls)
    ensures |Render(Keep(ls))| <= |Render(ls)|
    ensures NothingToDrop(ls) ==> Keep(ls) == ls
    ensures !NothingToDrop(ls) ==> |Render(Keep(ls))| < |Render(ls)|
  {
    if ls != [] {
      KeepShortens(ls[1..]);
      RenderHead(ls[0], Keep(ls[1..]));
      assert ls[0] in ls;
      assert ls == [ls[0]] + ls[1..];
    }
  }

  lemma IdentityExactlyWhenNothingToDrop(text: string)
    ensures Strip(text) == Some(text) <==>
      (text == "" || text[0] != BYTE_ORDER_MARK) && Lex(text).Some? && NothingToDrop(Lex(text).value)
  {
    var s := WithoutMark(text);
    if Lex(s).Some? {
      LexemesAreNonEmpty(s);
      KeepShortens(Lex(s).value);
    }
  }

  // ---------- When stripping is idempotent ----------

  /** The next significant lexeme is a comma that is itself dropped. */
  predicate NextIsTrailingComma(ls: seq<Lexeme>) {
    ls != [] && if ls[0].Comment? || IsSpacing(ls[0]) then NextIsTrailingComma(ls[1..]) else Dropped(ls)
  }

  /** A doubled trailing comma, as in `[1,,]`: only the last one goes. */
  predicate DoubledTrailingComma(ls: seq<Lexeme>) {
    ls != [] && ((ls[0] == Plain(",") && NextIsTrailingComma(ls[1..])) || DoubledTrailingComma(ls[1..]))
  }

  /** The first kept lexeme is a byte-order mark. */
  predicate LeadsWithMark(ls: seq<Lexeme>) {
    ls != [] && if Dropped(ls) then LeadsWithMark(ls[1..]) else ls[0] == Plain([BYTE_ORDER_MARK])
  }

  lemma {:induction false} NextClosesAfterKeep(ls: seq<Lexeme>)
    ensures NextCloses(Keep(ls)) <==> NextCloses(ls) || NextIsTrailingComma(ls)
  {
    if ls != [] {
      NextClosesAfterKeep(ls[1..]);
      assert ([ls[0]] + Keep(ls[1..]))[1..] == Keep(ls[1..]);
    }
  }

  lemma {:induction false} DroppedAgain(ls: seq<Lexeme>)
    ensures NothingToDrop(Keep(ls)) <==> !DoubledTrailingComma(ls)
  {
    if ls != [] {
      var rest := ls[1..];
      DroppedAgain(rest);
      NextClosesAfterKeep(rest);
      assert ([ls[0]] + Keep(rest))[1..] == Keep(rest);
      if Dropped(ls) && ls[0] == Plain(",") {
        ClosesIsNotTrailingComma(rest);
      }
    }
  }

  lemma {:induction false} ClosesIsNotTrailingComma(ls: seq<Lexeme>)
    requires NextCloses(ls)
    ensures !NextIsTrailingComma(ls)
  {
    if !IsCloser(ls[0]) {
      ClosesIsNotTrailingComma(ls[1..]);
    }
  }

  lemma {:induction false} MarkLeads(ls: seq<Lexeme>)
    requires NonEmpty(ls) && forall l :: l in ls && l.text[0] == BYTE_ORDER_MARK ==> l == Plain([BYTE_ORDER_MARK])
    ensures LeadsWithMark(ls) <==> Render(Keep(ls)) != "" && Render(Keep(ls))[0] == BYTE_ORDER_MARK
  {
    if ls != [] {
      MarkLeads(ls[1..]);
      RenderHead(ls[0], Keep(ls[1..]));
      assert ls[0] in ls;
    }
  }

  lemma {:induction false} MarkIsPlain(s: string)
    requires Lex(s).Some?
    ensures forall l :: l in Lex(s).value && l.text != "" && l.text[0] == BYTE_ORDER_MARK ==>
      l == Plain([BYTE_ORDER_MARK])
    decreases |s|
  {
    if s != "" {
      LexTail(s);
      MarkIsPlain(s[|First(s).value.text|..]);
    }
  }

  /**
   * Stripping twice is stripping once exactly when the text has no doubled trailing comma and what
   * is kept does not start with another byte-order mark.
   */
  lemma IdempotentExactlyWithoutDoubledComma(text: string)
    requires Strip(text).Some?
    ensures Strip(Strip(text).value) == Strip(text) <==>
      !DoubledTrailingComma(Lex(WithoutMark(text)).value) && !LeadsWithMark(Lex(WithoutMark(text)).value)
  {
    var s := WithoutMark(text);
    var ls := Lex(s).value;
    KeptReadsBack(s);
    LexemesAreNonEmpty(s);
    MarkIsPlain(s);
    MarkLeads(ls);
    DroppedAgain(ls);
    IdentityExactlyWhenNothingToDrop(Strip(text).value);
  }

  lemma LexDoubledComma()
    ensures Lex(",]") == Some([Plain(","), Plain("]")])
    ensures Lex(",,]") == Some([Plain(","), Plain(","), Plain("]")])
  {
    LexPlain(']', "");
    assert [']'] + "" == "]" && Lex("]").value == [Plain("]")];
    LexPlain(',', "]");
    assert [','] + "]" == ",]" && Lex(",]").value == [Plain(","), Plain("]")];
    LexPlain(',', ",]");
    assert [','] + ",]" == ",,]" && Lex(",,]").value == [Plain(","), Plain(","), Plain("]")];
  }

  /** Why the condition matters: two commas in front of a bracket go one at a time. */
  lemma DoubledCommaIsNotStable()
    ensures Strip(",,]") == Some(",]") && Strip(",]") == Some("]")
  {
    LexDoubledComma();
    hide Lex;
    KeepCons(Plain("]"), []);
    KeepCons(Plain(","), [Plain("]")]);
    KeepCons(Plain(","), [Plain(","), Plain("]")]);
    RenderHead(Plain("]"), []);
    RenderHead(Plain(","), [Plain("]")]);
    assert Strip(",]").value == "]";
  }

  lemma LexPlain(c: char, rest: string)
    requires c != '"' && c != '/' && Lex(rest).Some?
    ensures Lex([c] + rest) == Some([Plain([c])] + Lex(rest).value)
  {
    PlainReadsBack(c, rest);
    assert ([c] + rest)[1..] == rest;
  }

  lemma KeepCons(l: Lexeme, ls: seq<Lexeme>)
    ensures Keep([l] + ls) ==
      if l.Comment? || (l == Plain(",") && NextCloses(ls)) then Keep(ls) else [l] + Keep(ls)
  {
    assert ([l] + ls)[1..] == ls;
  }
}
