/**
 * What the listing parser reads, told by the grammar of its text: string literals as section 7 of RFC 8259 spells
 * them, and lines in groups that blank lines end.
 */
module PsGrammar {
  import opened Text
  import opened PsListing

  // ---------- String literals ----------

  predicate IsProper(p: Piece) {
    match p
    case Plain(c) => c >= ' ' && c != '"' && c != '\\'
    case Escaped(c) => c in "\"\\/bfnrt"
    case Code(digits) => |digits| == 4 && forall d :: d in digits ==> d in "0123456789abcdefABCDEF"
  }

  function Shown(p: Piece): string {
    match p
    case Plain(c) => [c]
    case Escaped(c) => ['\\', c]
    case Code(digits) => "\\u" + digits
  }

  function Printed(pieces: seq<Piece>): string {
    if pieces == [] then "" else Shown(pieces[0]) + Printed(pieces[1..])
  }

  predicate AllProper(pieces: seq<Piece>) {
    forall p :: p in pieces ==> IsProper(p)
  }

  lemma HexDigits(c: char)
    ensures IsHex(c) <==> c in "0123456789abcdefABCDEF"
  {
  }

  lemma Escapes(c: char)
    ensures IsEscape(c) <==> c in "\"\\/bfnrt"
  {
  }

  lemma PieceIsRead(p: Piece, tail: string)
    requires IsProper(p)
    ensures Pieces(Shown(p) + tail) == Cons(p, Pieces(tail))
  {
    var text := Shown(p) + tail;
    match p
    case Plain(c) => assert text[0] == c && text[1..] == tail;
    case Escaped(c) =>
      Escapes(c);
      assert c != 'u';
      assert text[0] == '\\' && text[1] == c && text[2..] == tail;
    case Code(digits) =>
      CodeIsRead(digits, tail);
      assert text == ['\\', 'u'] + digits + tail;
  }

  lemma CodeIsRead(digits: string, tail: string)
    requires IsProper(Code(digits))
    ensures var text := ['\\', 'u'] + digits + tail; Pieces(text) == Cons(Code(digits), Pieces(tail))
  {
    var text := ['\\', 'u'] + digits + tail;
    assert text[0] == '\\' && text[1] == 'u' && text[2..6] == digits && text[6..] == tail;
    forall i | 2 <= i < 6 ensures IsHex(text[i]) {
      assert text[i] == digits[i - 2] && digits[i - 2] in digits;
      HexDigits(text[i]);
    }
    hide IsHex;
  }

  lemma PrintedBehind(p: Piece, more: seq<Piece>, rest: string)
    ensures Printed([p] + more) + "\"" + rest == Shown(p) + (Printed(more) + "\"" + rest)
  {
    hide Shown;
    assert ([p] + more)[1..] == more;
  }

  /** What was printed is read back, and the text behind it is left. */
  lemma {:induction false} PrintedIsRead(pieces: seq<Piece>, rest: string)
    requires AllProper(pieces)
    ensures Pieces(Printed(pieces) + "\"" + rest) == Closed(pieces, rest)
  {
    if pieces == [] {
      var text := "" + "\"" + rest;
      assert text[0] == '"' && text[1..] == rest;
    } else {
      var p, more := pieces[0], pieces[1..];
      assert p in pieces && forall q :: q in more ==> q in pieces;
      assert pieces == [p] + more;
      PrintedIsRead(more, rest);
      PieceIsRead(p, Printed(more) + "\"" + rest);
      PrintedBehind(p, more, rest);
      hide Pieces, Printed, Shown, IsProper;
    }
  }

  /** The first piece of a text that is read. */
  lemma FirstPiece(s: string) returns (p: Piece, tail: string)
    requires Pieces(s).Closed? && s[0] != '"'
    ensures IsProper(p) && s == Shown(p) + tail && |tail| < |s| && Pieces(s) == Cons(p, Pieces(tail))
  {
    if s[0] != '\\' {
      p, tail := Plain(s[0]), s[1..];
    } else if s[1] == 'u' {
      p, tail := Code(s[2..6]), s[6..];
      forall d | d in s[2..6] ensures d in "0123456789abcdefABCDEF" {
        var i :| 0 <= i < 4 && s[2..6][i] == d;
        assert IsHex(s[i + 2]);
        HexDigits(d);
      }
      assert "\\u" == ['\\', 'u'];
    } else {
      p, tail := Escaped(s[1]), s[2..];
      Escapes(s[1]);
    }
    hide IsHex, IsEscape;
  }

  /** And whatever is read was printed so. */
  lemma {:induction false} ReadWasPrinted(s: string)
    requires Pieces(s).Closed?
    ensures var r := Pieces(s); AllProper(r.pieces) && s == Printed(r.pieces) + "\"" + r.rest
    decreases |s|
  {
    if s[0] == '"' {
      assert s == "" + "\"" + s[1..];
    } else {
      var p, tail := FirstPiece(s);
      ReadWasPrinted(tail);
      var r := Pieces(tail);
      PrintedBehind(p, r.pieces, r.rest);
      hide Pieces, Printed, Shown, IsProper;
    }
  }

  predicate IsJsonBlank(s: string) {
    forall c :: c in s ==> c in " \t\n\r"
  }

  /** The line is a literal of these pieces, with nothing but white space behind. */
  ghost predicate Spells(line: string, pieces: seq<Piece>) {
    AllProper(pieces) && exists rest :: IsLine(line, pieces, rest) && IsJsonBlank(rest)
  }

  predicate IsLine(line: string, pieces: seq<Piece>, rest: string) {
    line == "\"" + (Printed(pieces) + "\"" + rest)
  }

  lemma BlankAlike(s: string)
    ensures IsJsonBlank(s) <==> AllJsonSpace(s)
  {
    forall c ensures c in " \t\n\r" <==> IsJsonSpace(c) {
    }
  }

  lemma LineIsRead(line: string, pieces: seq<Piece>, rest: string)
    requires AllProper(pieces) && IsLine(line, pieces, rest)
    ensures line[1..] == Printed(pieces) + "\"" + rest && Pieces(line[1..]) == Closed(pieces, rest)
  {
    PrintedIsRead(pieces, rest);
    hide Pieces, AllProper;
  }

  lemma ReadLine(line: string)
    requires line != "" && line[0] == '"' && Pieces(line[1..]).Closed?
    ensures var r := Pieces(line[1..]); AllProper(r.pieces) && IsLine(line, r.pieces, r.rest)
  {
    ReadWasPrinted(line[1..]);
    hide Pieces, AllProper;
    assert line == "\"" + line[1..];
  }

  /**
   * A line that opens with a quotation mark has exactly the value its literal spells, if it is one; any other is
   * decoded as the platform does.
   */
  lemma DecodeExactly(other: string -> Option<Value>, line: string, pieces: seq<Piece>)
    ensures var quoted := line != "" && line[0] == '"'; var value := Decode(other, line);
      if quoted then value != Some(NotText) && (value == Some(Value.Text(pieces)) <==> Spells(line, pieces))
      else value == other(line)
  {
    if line == "" || line[0] != '"' {
      return;
    }
    if Pieces(line[1..]).Closed? {
      ReadLine(line);
      BlankAlike(Pieces(line[1..]).rest);
    }
    hide Pieces, AllProper, IsJsonBlank, AllJsonSpace, IsLine;
    if Spells(line, pieces) {
      var rest :| IsLine(line, pieces, rest) && IsJsonBlank(rest);
      LineIsRead(line, pieces, rest);
    }
  }

  // ---------- Groups of lines ----------

  /** The seven values of a group, line by line. */
  predicate AreValues(other: string -> Option<Value>, group: seq<string>, values: Container) {
    |group| == |values| == 7 && forall i :: 0 <= i < 7 ==> Decode(other, group[i]) == Some(values[i])
  }

  lemma {:induction false} DecodedOneByOne(other: string -> Option<Value>, group: seq<string>, values: Container)
    ensures DecodeAll(other, group) == Some(values) <==>
      |values| == |group| && forall i :: 0 <= i < |group| ==> Decode(other, group[i]) == Some(values[i])
  {
    if group != [] {
      var n := |group| - 1;
      if |values| == |group| {
        DecodedOneByOne(other, group[..n], values[..n]);
        assert values == values[..n] + [values[n]];
      }
      if DecodeAll(other, group) == Some(values) {
        DecodedOneByOne(other, group[..n], DecodeAll(other, group[..n]).value);
      }
    }
    hide Decode;
  }

  /** A group adds its container, or is reported by its first line, unless the cap may have cut it. */
  ghost predicate Adds(other: string -> Option<Value>, so: Listing, group: seq<string>, cut: bool, next: Listing)
    requires group != []
  {
    && (forall values :: AreValues(other, group, values) ==> next == Listing(so.containers + [values], so.errors))
    && ((forall values :: !AreValues(other, group, values)) ==>
          next == Listing(so.containers, if cut then so.errors else so.errors + [group[0]]))
  }

  lemma PushAdds(other: string -> Option<Value>, so: Listing, group: seq<string>, cut: bool)
    requires group != []
    ensures Adds(other, so, group, cut, Push(other, so, group, cut))
  {
    forall values ensures AreValues(other, group, values) <==> |group| == 7 && DecodeAll(other, group) == Some(values) {
      DecodedOneByOne(other, group, values);
    }
    if |group| == 7 && DecodeAll(other, group).Some? {
      assert AreValues(other, group, DecodeAll(other, group).value);
    }
    hide DecodeAll;
  }

  /** What becomes of some lines, read from a group's beginning. */
  function Listed(other: string -> Option<Value>, so: Listing, lines: seq<string>, truncated: bool): Listing {
    var end := AddLines(other, Scan([], so), lines);
    Push(other, end.listing, end.group, truncated)
  }

  predicate NoneBlank(lines: seq<string>) {
    forall line :: line in lines ==> exists c :: c in line && !IsSpace(c)
  }

  /** A blank line is one of white space only. */
  predicate IsBlank(line: string) {
    forall c :: c in line ==> IsSpace(c)
  }

  lemma {:induction false} GroupIsGathered(
    other: string -> Option<Value>, at: Scan, group: seq<string>, more: seq<string>)
    requires NoneBlank(group)
    ensures AddLines(other, at, group + more) == AddLines(other, at.(group := at.group + group), more)
    decreases |group|
  {
    if group == [] {
      assert group + more == more && at.group + group == at.group;
    } else {
      assert group[0] in group && forall line :: line in group[1..] ==> line in group;
      GroupIsGathered(other, at.(group := at.group + [group[0]]), group[1..], more);
      assert (group + more)[1..] == group[1..] + more;
      assert at.group + [group[0]] + group[1..] == at.group + group;
    }
  }

  /**
   * The listing of a text is that of its lines; a blank line before a group is skipped; a group a blank line ends
   * adds its container or is reported; and the last group is not reported if the listing was truncated. This
   * determines the listing of every text.
   */
  lemma ListingExactly(
    other: string -> Option<Value>, so: Listing, group: seq<string>, blank: string, more: seq<string>, truncated: bool)
    requires NoneBlank(group) && group != [] && IsBlank(blank)
    ensures forall text ::
      Parse(other, text, truncated) == Listed(other, Listing([], []), Lines(text), truncated)
    ensures Listed(other, so, [], truncated) == so
    ensures Listed(other, so, [blank] + more, truncated) == Listed(other, so, more, truncated)
    ensures exists next ::
      Adds(other, so, group, false, next)
      && Listed(other, so, group + ([blank] + more), truncated) == Listed(other, next, more, truncated)
    ensures Adds(other, so, group, truncated, Listed(other, so, group, truncated))
  {
    PushAdds(other, so, group, false);
    PushAdds(other, so, group, truncated);
    GroupIsGathered(other, Scan([], so), group, [blank] + more);
    GroupIsGathered(other, Scan([], so), group, []);
    assert ([blank] + more)[0] == blank && ([blank] + more)[1..] == more;
    assert group + [] == group && [] + group == group;
    hide Push, Adds;
  }
}
