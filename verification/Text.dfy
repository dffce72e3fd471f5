/** Optional values and the few ECMAScript string operations the modelled code relies on. */
module Text {

  datatype Option<+T> = None | Some(value: T)

  /** The characters `\s` matches, which are also the ones `trim()` removes. */
  predicate IsSpace(c: char) {
    || '\t' <= c <= '\r' || c == ' ' || c == '\U{00A0}' || c == '\U{1680}'
    || '\U{2000}' <= c <= '\U{200A}' || c == '\U{2028}' || c == '\U{2029}'
    || c == '\U{202F}' || c == '\U{205F}' || c == '\U{3000}' || c == '\U{FEFF}'
  }

  /** The code points ECMAScript calls white space or line terminators (sections 12.2 and 12.3 of ECMA-262). */
  const SPACES: set<int> := {
    0x9, 0xA, 0xB, 0xC, 0xD, 0x20, 0xA0, 0x1680, 0x2000, 0x2001, 0x2002, 0x2003, 0x2004, 0x2005, 0x2006, 0x2007,
    0x2008, 0x2009, 0x200A, 0x2028, 0x2029, 0x202F, 0x205F, 0x3000, 0xFEFF}

  lemma SpacesExactly(c: char)
    ensures IsSpace(c) <==> c as int in SPACES
  {
  }

  predicate StartsWith(s: string, prefix: string) {
    prefix <= s
  }

  /** Where the trailing white space of `s` begins. */
  function TrimEndAt(s: string): (n: nat)
    ensures n <= |s| && (n > 0 ==> !IsSpace(s[n - 1])) && forall k :: n <= k < |s| ==> IsSpace(s[k])
  {
    if s == "" || !IsSpace(s[|s| - 1]) then |s| else TrimEndAt(s[..|s| - 1])
  }

  /** Where the leading white space of `s` ends. */
  function TrimStartAt(s: string): (n: nat)
    ensures n <= |s| && (n < |s| ==> !IsSpace(s[n])) && forall k :: 0 <= k < n ==> IsSpace(s[k])
  {
    if s == "" || !IsSpace(s[0]) then 0
    else
      assert forall k :: 0 < k < |s| ==> s[k] == s[1..][k - 1];
      1 + TrimStartAt(s[1..])
  }

  function TrimEnd(s: string): string {
    s[..TrimEndAt(s)]
  }

  function Trim(s: string): string {
    TrimEnd(s)[TrimStartAt(TrimEnd(s))..]
  }

  /** `split("\n")`. */
  function Lines(s: string): (lines: seq<string>)
    ensures lines != []
  {
    if s == "" then [""]
    else
      var rest := Lines(s[1..]);
      if s[0] == '\n' then [""] + rest else [[s[0]] + rest[0]] + rest[1..]
  }

  lemma {:induction false} LineThenRest(line: string, rest: string)
    requires '\n' !in line
    ensures Lines(line + "\n" + rest) == [line] + Lines(rest)
  {
    var text := line + "\n" + rest;
    if line == "" {
      assert text[0] == '\n' && text[1..] == rest;
    } else {
      assert line[0] in line && '\n' !in line[1..];
      LineThenRest(line[1..], rest);
      assert text[0] == line[0] && text[1..] == line[1..] + "\n" + rest;
      assert ([line[1..]] + Lines(rest))[1..] == Lines(rest);
      assert [line[0]] + line[1..] == line;
    }
  }

  lemma {:induction false} OneLine(line: string)
    requires '\n' !in line
    ensures Lines(line) == [line]
  {
    if line != "" {
      assert '\n' !in line[1..];
      OneLine(line[1..]);
      assert line == [line[0]] + line[1..];
    }
  }
}
