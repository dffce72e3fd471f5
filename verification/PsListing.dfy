/**
 * The container listing (src/runtime/docker-adapter.ts): seven lines per container, each a JSON string,
 * and a blank line after each container. A byte cap may cut the text anywhere, even inside a character.
 */
module PsListing {
  import opened Text

  // ---------- JSON string literals (RFC 8259, section 7) ----------

  datatype Piece = Plain(c: char) | Escaped(c: char) | Code(digits: string)

  predicate IsHex(c: char) {
    '0' <= c <= '9' || 'a' <= c <= 'f' || 'A' <= c <= 'F'
  }

  predicate IsEscape(c: char) {
    c == '"' || c == '\\' || c == '/' || c == 'b' || c == 'f' || c == 'n' || c == 'r' || c == 't'
  }

  /** The pieces up to the closing quotation mark and what follows it. */
  datatype Scanned = Closed(pieces: seq<Piece>, rest: string) | Broken

  function Cons(p: Piece, s: Scanned): Scanned {
    if s.Broken? then Broken else Closed([p] + s.pieces, s.rest)
  }

  function Pieces(s: string): Scanned {
    if s == "" then Broken
    else if s[0] == '"' then Closed([], s[1..])
    else if s[0] == '\\' then
      if |s| < 2 then Broken
      else if s[1] == 'u' then
        if |s| >= 6 && forall i :: 2 <= i < 6 ==> IsHex(s[i]) then Cons(Code(s[2..6]), Pieces(s[6..])) else Broken
      else if IsEscape(s[1]) then Cons(Escaped(s[1]), Pieces(s[2..]))
      else Broken
    else if s[0] < ' ' then Broken
    else Cons(Plain(s[0]), Pieces(s[1..]))
  }

  /** What `JSON.parse` gives: a string by its pieces, another value, or nothing when it throws. */
  datatype Value = Text(pieces: seq<Piece>) | NotText

  predicate IsJsonSpace(c: char) {
    c == ' ' || c == '\t' || c == '\n' || c == '\r'
  }

  predicate AllJsonSpace(s: string) {
    forall c :: c in s ==> IsJsonSpace(c)
  }

  /** Text that does not open with a quotation mark is left to `other`. */
  function Decode(other: string -> Option<Value>, line: string): Option<Value> {
    if line == "" || line[0] != '"' then other(line)
    else
      match Pieces(line[1..])
      case Broken => None
      case Closed(pieces, rest) => if AllJsonSpace(rest) then Some(Text(pieces)) else None
  }

  predicate IsLiteral(line: string) {
    line != "" && line[0] == '"' && Pieces(line[1..]).Closed? && Pieces(line[1..]).rest == ""
  }

  // ---------- The parser ----------

  const FIELDS: nat := 7

  predicate Blank(line: string) {
    forall c :: c in line ==> IsSpace(c)
  }

  /** The seven values of a container; labels and workspace identity are functions of the last one. */
  type Container = seq<Value>

  datatype Listing = Listing(containers: seq<Container>, errors: seq<string>)

  function DecodeAll(other: string -> Option<Value>, group: seq<string>): Option<Container> {
    if group == [] then Some([])
    else
      var front, last := DecodeAll(other, group[..|group| - 1]), Decode(other, group[|group| - 1]);
      if front.None? || last.None? then None else Some(front.value + [last.value])
  }

  /** One group of lines; a group the cap may have cut is not reported. */
  function Push(other: string -> Option<Value>, so: Listing, group: seq<string>, partialLast: bool): Listing {
    if group == [] then so
    else
      var c := if |group| == FIELDS then DecodeAll(other, group) else None;
      if c.Some? then so.(containers := so.containers + [c.value])
      else if partialLast then so
      else so.(errors := so.errors + [group[0]])
  }

  datatype Scan = Scan(group: seq<string>, listing: Listing)

  function AddLine(other: string -> Option<Value>, at: Scan, line: string): Scan {
    if Blank(line) then Scan([], Push(other, at.listing, at.group, false)) else at.(group := at.group + [line])
  }

  function AddLines(other: string -> Option<Value>, at: Scan, lines: seq<string>): Scan
    decreases |lines|
  {
    if lines == [] then at else AddLines(other, AddLine(other, at, lines[0]), lines[1..])
  }

  const START := Scan([], Listing([], []))

  function Parse(other: string -> Option<Value>, text: string, truncated: bool): Listing {
    var end := AddLines(other, START, Lines(text));
    Push(other, end.listing, end.group, truncated)
  }

  method PushContainer(
    other: string -> Option<Value>, so: Listing, group: seq<string>, partialLast: bool)
    returns (r: Listing)
    ensures r == Push(other, so, group, partialLast)
  {
    r := so;
    if |group| == 0 {
      return;
    }
    if |group| != FIELDS {
      if !partialLast {
        r := r.(errors := r.errors + [group[0]]);
      }
      return;
    }
    var values: Container := [];
    for i := 0 to FIELDS
      invariant DecodeAll(other, group[..i]) == Some(values)
    {
      assert group[..i + 1][..i] == group[..i];
      var v := Decode(other, group[i]);
      if v.None? {
        DecodeAllFails(other, group, i);
        if !partialLast {
          r := r.(errors := r.errors + [group[0]]);
        }
        return;
      }
      values := values + [v.value];
    }
    assert group[..FIELDS] == group;
    r := r.(containers := r.containers + [values]);
  }

  lemma {:induction false} DecodeAllFails(other: string -> Option<Value>, group: seq<string>, i: nat)
    requires i < |group| && Decode(other, group[i]).None?
    ensures DecodeAll(other, group).None?
  {
    if i < |group| - 1 {
      DecodeAllFails(other, group[..|group| - 1], i);
    }
  }

  method ParsePsAll(other: string -> Option<Value>, text: string, truncated: bool) returns (r: Listing)
    ensures r == Parse(other, text, truncated)
  {
    r := Listing([], []);
    var lines := Lines(text);
    var group: seq<string> := [];
    for i := 0 to |lines|
      invariant AddLines(other, START, lines) == AddLines(other, Scan(group, r), lines[i..])
    {
      assert lines[i..][0] == lines[i] && lines[i..][1..] == lines[i + 1..];
      if Blank(lines[i]) {
        r := PushContainer(other, r, group, false);
        group := [];
      } else {
        group := group + [lines[i]];
      }
    }
    assert lines[|lines|..] == [];
    r := PushContainer(other, r, group, truncated);
  }

  // ---------- A cut literal never decodes ----------

  /** What a cut leaves of `s`: some characters, and a replacement character if it tore the next one. */
  function Cut(s: string, m: nat, torn: bool): string
    requires m <= |s|
  {
    s[..m] + if torn then "\U{FFFD}" else ""
  }

  lemma CutDrop(s: string, m: nat, torn: bool, k: nat)
    requires k <= m <= |s|
    ensures Cut(s, m, torn)[k..] == Cut(s[k..], m - k, torn)
  {
    assert s[..m][k..] == s[k..][..m - k];
  }

  /** A proper prefix of a literal's body, torn or not, has no closing quotation mark. */
  lemma {:induction false} CutBodyIsBroken(s: string, m: nat, torn: bool)
    requires Pieces(s).Closed? && Pieces(s).rest == "" && m < |s|
    ensures Pieces(Cut(s, m, torn)).Broken?
    decreases |s|
  {
    var cut := Cut(s, m, torn);
    if m == 0 {
      assert s[..0] == "";
      if torn {
        assert cut == "\U{FFFD}" && cut[1..] == "";
      }
    } else if s[0] == '\\' {
      EscapeCut(s, m, torn);
    } else {
      CutDrop(s, m, torn, 1);
      CutBodyIsBroken(s[1..], m - 1, torn);
    }
  }

  lemma {:induction false} EscapeCut(s: string, m: nat, torn: bool)
    requires Pieces(s).Closed? && Pieces(s).rest == "" && 0 < m < |s| && s[0] == '\\'
    ensures Pieces(Cut(s, m, torn)).Broken?
    decreases |s|, 0
  {
    var cut := Cut(s, m, torn);
    var width := if s[1] == 'u' then 6 else 2;
    if m >= width {
      CutDrop(s, m, torn, width);
      assert s[1] == 'u' ==> s[..m][2..6] == s[2..6] && cut[2..6] == s[2..6];
      CutBodyIsBroken(s[width..], m - width, torn);
    } else if m > 1 {
      assert cut[1] == 'u' && (torn ==> cut[m] == '\U{FFFD}');
    }
  }

  lemma CutLiteralNeverDecodes(other: string -> Option<Value>, line: string, m: nat, torn: bool)
    requires IsLiteral(line) && 0 < m < |line|
    ensures Decode(other, Cut(line, m, torn)).None?
  {
    CutDrop(line, m, torn, 1);
    CutBodyIsBroken(line[1..], m - 1, torn);
  }

  lemma {:induction false} BodyHasNoNewline(s: string)
    requires Pieces(s).Closed? && Pieces(s).rest == ""
    ensures '\n' !in s
  {
    if s[0] == '"' {
      assert s == [s[0]];
    } else {
      var width := if s[0] != '\\' then 1 else if s[1] == 'u' then 6 else 2;
      BodyHasNoNewline(s[width..]);
      assert s == s[..width] + s[width..];
    }
  }

  // ---------- Well-formed listings ----------

  ghost predicate IsRecord(fields: seq<string>) {
    |fields| == FIELDS && forall f :: f in fields ==> IsLiteral(f)
  }

  function FieldsText(fields: seq<string>): string {
    if fields == [] then "" else fields[0] + "\n" + FieldsText(fields[1..])
  }

  function RecordText(fields: seq<string>): string {
    FieldsText(fields) + "\n"
  }

  function Render(records: seq<seq<string>>): string {
    if records == [] then "" else RecordText(records[0]) + Render(records[1..])
  }

  /** The records whose seven lines lie wholly before the cut at `n`. */
  function WhollyBefore(records: seq<seq<string>>, n: nat): seq<seq<string>> {
    if records == [] then []
    else
      var size := |RecordText(records[0])|;
      if n >= size then [records[0]] + WhollyBefore(records[1..], n - size)
      else if n + 2 >= size then [records[0]]
      else []
  }

  function ValuesOf(other: string -> Option<Value>, records: seq<seq<string>>): seq<Container> {
    if records == [] then []
    else
      var c := DecodeAll(other, records[0]);
      (if c.Some? then [c.value] else []) + ValuesOf(other, records[1..])
  }

  lemma {:induction false} LiteralsDecode(other: string -> Option<Value>, fields: seq<string>)
    requires forall f :: f in fields ==> IsLiteral(f)
    ensures DecodeAll(other, fields).Some?
  {
    if fields != [] {
      assert fields[|fields| - 1] in fields;
      LiteralsDecode(other, fields[..|fields| - 1]);
    }
  }

  lemma LiteralLine(line: string)
    requires IsLiteral(line)
    ensures '\n' !in line && !Blank(line)
  {
    BodyHasNoNewline(line[1..]);
    assert line[0] in line && line == [line[0]] + line[1..];
  }

  lemma ReadField(other: string -> Option<Value>, at: Scan, line: string, more: string)
    requires IsLiteral(line)
    ensures AddLines(other, at, Lines(line + "\n" + more))
      == AddLines(other, at.(group := at.group + [line]), Lines(more))
  {
    LiteralLine(line);
    LineThenRest(line, more);
    hide Lines, IsLiteral, Blank;
    assert ([line] + Lines(more))[1..] == Lines(more);
  }

  /** Reading some complete fields adds them to the group. */
  lemma {:induction false} ReadFields(other: string -> Option<Value>, at: Scan, fields: seq<string>, rest: string)
    requires forall f :: f in fields ==> IsLiteral(f)
    ensures AddLines(other, at, Lines(FieldsText(fields) + rest))
      == AddLines(other, at.(group := at.group + fields), Lines(rest))
    decreases |fields|
  {
    hide Lines, IsLiteral, AddLines;
    if fields == [] {
      assert FieldsText(fields) + rest == rest;
      assert at.group + fields == at.group;
    } else {
      var line, more := fields[0], FieldsText(fields[1..]) + rest;
      assert FieldsText(fields) + rest == line + "\n" + more;
      ReadField(other, at, line, more);
      var next := at.(group := at.group + [line]);
      ReadFields(other, next, fields[1..], rest);
      assert at.group + fields == next.group + fields[1..];
    }
  }

  /** Reading a whole record adds its container. */
  lemma ReadRecord(other: string -> Option<Value>, so: Listing, fields: seq<string>, rest: string)
    requires IsRecord(fields)
    ensures DecodeAll(other, fields).Some?
    ensures AddLines(other, Scan([], so), Lines(RecordText(fields) + rest))
      == AddLines(other, Scan([], so.(containers := so.containers + [DecodeAll(other, fields).value])), Lines(rest))
  {
    ReadFields(other, Scan([], so), fields, "\n" + rest);
    assert RecordText(fields) + rest == FieldsText(fields) + ("\n" + rest);
    LineThenRest("", rest);
    assert "" + "\n" + rest == "\n" + rest;
    assert ([""] + Lines(rest))[1..] == Lines(rest);
    LiteralsDecode(other, fields);
    hide Lines, IsLiteral, DecodeAll, FieldsText;
    assert [] + fields == fields;
  }

  // ---------- The cut ----------

  /** What the parser reports of the text from some point on. */
  function Finish(other: string -> Option<Value>, at: Scan, text: string): Listing {
    var end := AddLines(other, at, Lines(text));
    Push(other, end.listing, end.group, true)
  }

  /** A cut tears a character only if that character takes more than one byte. */
  predicate CanTear(s: string, m: nat, torn: bool) {
    m <= |s| && (torn ==> m < |s| && s[m] >= '\U{0080}')
  }

  lemma FinishOneLine(other: string -> Option<Value>, at: Scan, line: string)
    requires '\n' !in line
    ensures Finish(other, at, line) ==
      if Blank(line) then Push(other, at.listing, at.group, false) else Push(other, at.listing, at.group + [line], true)
  {
    OneLine(line);
    hide Lines, Blank, Push;
    assert AddLines(other, at, [line]) == AddLine(other, at, line);
  }

  lemma FinishField(other: string -> Option<Value>, at: Scan, line: string, more: string)
    requires IsLiteral(line)
    ensures Finish(other, at, line + "\n" + more) == Finish(other, at.(group := at.group + [line]), more)
  {
    ReadField(other, at, line, more);
    hide AddLines, Lines, Push;
  }

  lemma FinishRecord(other: string -> Option<Value>, so: Listing, fields: seq<string>, more: string)
    requires IsRecord(fields)
    ensures DecodeAll(other, fields).Some?
    ensures Finish(other, Scan([], so), RecordText(fields) + more)
      == Finish(other, Scan([], so.(containers := so.containers + [DecodeAll(other, fields).value])), more)
  {
    ReadRecord(other, so, fields, more);
    hide AddLines, Lines, Push, DecodeAll;
  }

  /** Splitting a text at a point the cut lies behind. */
  lemma CutBehind(front: string, back: string, m: nat, torn: bool)
    requires |front| <= m && CanTear(front + back, m, torn)
    ensures CanTear(back, m - |front|, torn)
    ensures Cut(front + back, m, torn) == front + Cut(back, m - |front|, torn)
  {
    assert (front + back)[..m] == front + back[..m - |front|];
  }

  lemma CutBefore(front: string, back: string, m: nat, torn: bool)
    requires m <= |front| && CanTear(front + back, m, torn) && (torn ==> m < |front|)
    ensures CanTear(front, m, torn) && Cut(front + back, m, torn) == Cut(front, m, torn)
  {
    assert (front + back)[..m] == front[..m];
  }

  /** The text a cut inside the first field leaves; quotation marks and newlines are never torn. */
  lemma TextInField(fields: seq<string>, m: nat, torn: bool)
    requires fields != [] && IsLiteral(fields[0]) && m <= |fields[0]| && CanTear(RecordText(fields), m, torn)
    ensures var text := Cut(RecordText(fields), m, torn);
      && text == Cut(fields[0], m, torn) && '\n' !in text
      && (m == 0 ==> text == "") && (m == |fields[0]| ==> text == fields[0]) && (m > 0 ==> !Blank(text))
  {
    var line := fields[0];
    var text := Cut(RecordText(fields), m, torn);
    LiteralLine(line);
    assert RecordText(fields) == line + ("\n" + FieldsText(fields[1..]) + "\n");
    assert RecordText(fields)[..m] == line[..m];
    hide Pieces;
    if m > 0 {
      assert text[0] == '"' && text[0] in text;
    }
  }

  /** The cut falls inside the first of the remaining fields. */
  lemma CutInField(
    other: string -> Option<Value>, so: Listing, before: seq<string>, fields: seq<string>, m: nat, torn: bool)
    requires fields != [] && |before| + |fields| == FIELDS && m <= |fields[0]| && CanTear(RecordText(fields), m, torn)
    requires IsLiteral(fields[0]) && DecodeAll(other, before).Some?
    ensures Finish(other, Scan(before, so), Cut(RecordText(fields), m, torn)).containers == so.containers
      + if m == |fields[0]| && |fields| == 1 then [DecodeAll(other, before + fields).value] else []
    ensures DecodeAll(other, before + [fields[0]]).Some?
  {
    var line := fields[0];
    var text := Cut(RecordText(fields), m, torn);
    TextInField(fields, m, torn);
    hide Lines, FieldsText, Cut, RecordText, Pieces, Blank, AddLines, CanTear;
    FinishOneLine(other, Scan(before, so), text);
    assert (before + [line])[..|before|] == before && (before + [text])[..|before|] == before;
    if 0 < m < |line| {
      CutLiteralNeverDecodes(other, line, m, torn);
    }
    assert |fields| == 1 ==> before + fields == before + [line];
    hide Finish;
  }

  lemma CutAfterFields(other: string -> Option<Value>, so: Listing, before: seq<string>)
    requires |before| == FIELDS && DecodeAll(other, before).Some?
    ensures Finish(other, Scan(before, so), "").containers == so.containers + [DecodeAll(other, before).value]
  {
    FinishOneLine(other, Scan(before, so), "");
  }

  lemma {:induction false} CutInRecord(
    other: string -> Option<Value>, so: Listing, before: seq<string>, fields: seq<string>, m: nat, torn: bool)
    requires |before| + |fields| == FIELDS && m < |RecordText(fields)| && CanTear(RecordText(fields), m, torn)
    requires (forall f :: f in fields ==> IsLiteral(f)) && DecodeAll(other, before).Some?
    ensures DecodeAll(other, before + fields).Some?
    ensures Finish(other, Scan(before, so), Cut(RecordText(fields), m, torn)).containers == so.containers
      + if m + 2 >= |RecordText(fields)| then [DecodeAll(other, before + fields).value] else []
    decreases |fields|
  {
    hide IsLiteral, Finish, DecodeAll;
    if fields == [] {
      assert Cut(RecordText(fields), m, torn) == "" && before + fields == before;
      CutAfterFields(other, so, before);
    } else {
      var line, rest := fields[0], fields[1..];
      var size := |line| + 1;
      assert RecordText(fields) == line + "\n" + RecordText(rest);
      if m >= size {
        CutBehind(line + "\n", RecordText(rest), m, torn);
        CutInField(other, so, before, fields, 0, false);
        FinishField(other, Scan(before, so), line, Cut(RecordText(rest), m - size, torn));
        CutInRecord(other, so, before + [line], rest, m - size, torn);
        hide RecordText, Cut;
        assert before + fields == (before + [line]) + rest;
      } else {
        CutInField(other, so, before, fields, m, torn);
        CutLengths(fields, m);
        LaterFieldsDecode(other, before, fields);
      }
    }
  }

  lemma {:induction false} LaterFieldsDecode(other: string -> Option<Value>, before: seq<string>, fields: seq<string>)
    requires DecodeAll(other, before).Some? && forall f :: f in fields ==> IsLiteral(f)
    ensures DecodeAll(other, before + fields).Some?
  {
    if fields == [] {
      assert before + fields == before;
    } else {
      var n := |fields| - 1;
      assert fields[n] in fields;
      LaterFieldsDecode(other, before, fields[..n]);
      assert (before + fields)[..|before| + n] == before + fields[..n];
    }
  }

  lemma CutLengths(fields: seq<string>, m: nat)
    requires fields != [] && m <= |fields[0]|
    ensures m + 2 >= |RecordText(fields)| <==> m == |fields[0]| && |fields| == 1
  {
    assert |RecordText(fields)| == |fields[0]| + 2 + |FieldsText(fields[1..])|;
    if |fields| > 1 {
      assert FieldsText(fields[1..]) != "";
    } else {
      assert fields[1..] == [];
    }
  }

  lemma ValuesCons(other: string -> Option<Value>, r: seq<string>, rest: seq<seq<string>>)
    requires DecodeAll(other, r).Some?
    ensures ValuesOf(other, [r] + rest) == [DecodeAll(other, r).value] + ValuesOf(other, rest)
  {
    assert ([r] + rest)[1..] == rest;
  }

  /** The cut lies behind the first record. */
  lemma CutPast(
    other: string -> Option<Value>, so: Listing, r: seq<string>, text: string, n: nat, torn: bool, tail: seq<Container>)
    requires IsRecord(r) && DecodeAll(other, r).Some?
    requires n >= |RecordText(r)| && CanTear(RecordText(r) + text, n, torn)
    requires var next := so.(containers := so.containers + [DecodeAll(other, r).value]);
      Finish(other, Scan([], next), Cut(text, n - |RecordText(r)|, torn)).containers == next.containers + tail
    ensures Finish(other, Scan([], so), Cut(RecordText(r) + text, n, torn)).containers
      == so.containers + ([DecodeAll(other, r).value] + tail)
  {
    CutBehind(RecordText(r), text, n, torn);
    FinishRecord(other, so, r, Cut(text, n - |RecordText(r)|, torn));
    hide Finish, Cut, RecordText, DecodeAll, IsRecord, CanTear;
  }

  /** The cut lies in the first record. */
  lemma CutWithin(other: string -> Option<Value>, so: Listing, r: seq<string>, text: string, n: nat, torn: bool)
    requires IsRecord(r) && DecodeAll(other, r).Some?
    requires n < |RecordText(r)| && CanTear(RecordText(r) + text, n, torn)
    ensures Finish(other, Scan([], so), Cut(RecordText(r) + text, n, torn)).containers
      == so.containers + if n + 2 >= |RecordText(r)| then [DecodeAll(other, r).value] else []
  {
    RecordsDecode(other, r);
    CutBefore(RecordText(r), text, n, torn);
    CutInRecord(other, so, [], r, n, torn);
    hide Finish, Cut, RecordText, DecodeAll, IsRecord, CanTear;
    assert [] + r == r;
  }

  lemma StillTears(front: string, back: string, n: nat, torn: bool)
    requires n >= |front| && CanTear(front + back, n, torn)
    ensures CanTear(back, n - |front|, torn)
  {
  }

  /**
   * Whatever the cut, even inside a character, the parser reports exactly the containers whose seven lines lie
   * before it, in order, and invents none.
   */
  lemma {:induction false} CutListing(
    other: string -> Option<Value>, so: Listing, records: seq<seq<string>>, n: nat, torn: bool)
    requires (forall r :: r in records ==> IsRecord(r)) && CanTear(Render(records), n, torn)
    ensures Finish(other, Scan([], so), Cut(Render(records), n, torn)).containers
      == so.containers + ValuesOf(other, WhollyBefore(records, n))
    decreases |records|
  {
    hide Finish, Lines, IsRecord, DecodeAll, RecordText, Cut, CanTear;
    if records == [] {
      CutNothing(other, so, n, torn);
    } else {
      var r, rest := records[0], records[1..];
      RecordsDecode(other, r);
      var size := |RecordText(r)|;
      if n >= size {
        StillTears(RecordText(r), Render(rest), n, torn);
        ValuesCons(other, r, WhollyBefore(rest, n - size));
        CutListing(other, so.(containers := so.containers + [DecodeAll(other, r).value]), rest, n - size, torn);
        CutPast(other, so, r, Render(rest), n, torn, ValuesOf(other, WhollyBefore(rest, n - size)));
      } else {
        ValuesCons(other, r, []);
        assert [r] + [] == [r];
        CutWithin(other, so, r, Render(rest), n, torn);
      }
    }
  }

  lemma CutNothing(other: string -> Option<Value>, so: Listing, n: nat, torn: bool)
    requires CanTear("", n, torn)
    ensures Finish(other, Scan([], so), Cut("", n, torn)) == so
  {
    FinishOneLine(other, Scan([], so), "");
  }

  lemma RecordsDecode(other: string -> Option<Value>, r: seq<string>)
    requires IsRecord(r)
    ensures DecodeAll(other, r).Some? && DecodeAll(other, []).Some?
    ensures |r| == FIELDS && forall f :: f in r ==> IsLiteral(f)
  {
    LiteralsDecode(other, r);
  }

  /** The parser on a truncated listing. */
  lemma CutListingIsParsed(other: string -> Option<Value>, records: seq<seq<string>>, n: nat, torn: bool)
    requires (forall r :: r in records ==> IsRecord(r)) && CanTear(Render(records), n, torn)
    ensures Parse(other, Cut(Render(records), n, torn), true).containers == ValuesOf(other, WhollyBefore(records, n))
  {
    CutListing(other, START.listing, records, n, torn);
    hide AddLines, Lines;
  }

  /** Uncut, every container is there, in order, and nothing is reported. */
  lemma WholeListing(other: string -> Option<Value>, records: seq<seq<string>>, truncated: bool)
    requires forall r :: r in records ==> IsRecord(r)
    ensures Parse(other, Render(records), truncated) == Listing(ValuesOf(other, records), [])
    ensures |ValuesOf(other, records)| == |records|
  {
    WholeScan(other, START.listing, records);
    hide AddLines, Lines, ValuesOf;
    assert [] + ValuesOf(other, records) == ValuesOf(other, records);
  }

  lemma {:induction false} WholeScan(other: string -> Option<Value>, so: Listing, records: seq<seq<string>>)
    requires forall r :: r in records ==> IsRecord(r)
    ensures AddLines(other, Scan([], so), Lines(Render(records)))
      == Scan([], so.(containers := so.containers + ValuesOf(other, records)))
    ensures |ValuesOf(other, records)| == |records|
    decreases |records|
  {
    hide IsRecord, DecodeAll;
    if records == [] {
      assert AddLines(other, Scan([], so), [""]) == AddLine(other, Scan([], so), "");
    } else {
      var r, rest := records[0], records[1..];
      assert r in records;
      ReadRecord(other, so, r, Render(rest));
      ValuesCons(other, r, rest);
      var next := so.(containers := so.containers + [DecodeAll(other, r).value]);
      WholeScan(other, next, rest);
      hide AddLines, Lines, RecordText, ValuesOf;
      assert [r] + rest == records;
      assert next.containers + ValuesOf(other, rest)
        == so.containers + ([DecodeAll(other, r).value] + ValuesOf(other, rest));
    }
  }
}
