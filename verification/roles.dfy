/**
  Parsing the `ROLES` file: one `branch:user1,user2` entry per line, blank
  lines skipped, a later line for a branch replacing an earlier one.
 */
module Roles {
  import opened Outcomes

  /** The characters Python 2's `str.strip()` removes. */
  predicate IsSpace(ch: char) {
    ch == ' ' || ch == '\t' || ch == '\n' || ch == '\r' || ch == '\U{000B}' || ch == '\U{000C}'
  }

  /** `s` without its leading whitespace. */
  function StripLeft(s: string): (r: string)
    ensures |r| <= |s|
    ensures r == [] || !IsSpace(r[0])
    decreases |s|
  {
    if |s| > 0 && IsSpace(s[0]) then StripLeft(s[1..]) else s
  }

  /** `s` without its trailing whitespace. */
  function StripRight(s: string): (r: string)
    ensures |r| <= |s|
    ensures r == [] || !IsSpace(r[|r| - 1])
    decreases |s|
  {
    if |s| > 0 && IsSpace(s[|s| - 1]) then StripRight(s[..|s| - 1]) else s
  }

  /** `str.strip()`: `s` with its leading and trailing whitespace cut off. */
  function Strip(s: string): (r: string)
    ensures r == [] || (!IsSpace(r[0]) && !IsSpace(r[|r| - 1]))
  {
    StripRightDropsSpace(StripLeft(s));
    StripRight(StripLeft(s))
  }

  /** `StripLeft` drops a run of whitespace from the front and keeps the rest. */
  lemma {:induction false} StripLeftDropsSpace(s: string)
    ensures var k := |s| - |StripLeft(s)|;
      && StripLeft(s) == s[k..]
      && (forall i :: 0 <= i < k ==> IsSpace(s[i]))
    decreases |s|
  {
    if |s| > 0 && IsSpace(s[0]) {
      StripLeftDropsSpace(s[1..]);
      var k := |s| - |StripLeft(s)|;
      assert s[1..][k - 1..] == s[k..];
      forall i | 1 <= i < k
        ensures IsSpace(s[i])
      {
        assert s[i] == s[1..][i - 1];
      }
    }
  }

  /** `StripRight` drops a run of whitespace from the back and keeps the rest. */
  lemma {:induction false} StripRightDropsSpace(s: string)
    ensures var n := |StripRight(s)|;
      && StripRight(s) == s[..n]
      && (forall i :: n <= i < |s| ==> IsSpace(s[i]))
    decreases |s|
  {
    if |s| > 0 && IsSpace(s[|s| - 1]) {
      var t := s[..|s| - 1];
      StripRightDropsSpace(t);
      var n := |StripRight(s)|;
      assert t[..n] == s[..n];
      forall i | n <= i < |s| - 1
        ensures IsSpace(s[i])
      {
        assert s[i] == t[i];
      }
    }
  }

  /** What `Strip` keeps is a run of `s` with only whitespace before and after
      it. */
  lemma StripKeepsMiddle(s: string)
    ensures var k := |s| - |StripLeft(s)|;
      && k + |Strip(s)| <= |s|
      && (forall i :: 0 <= i < |Strip(s)| ==> Strip(s)[i] == s[k + i])
      && (forall i :: 0 <= i < k ==> IsSpace(s[i]))
      && (forall i :: k + |Strip(s)| <= i < |s| ==> IsSpace(s[i]))
  {
    var left := StripLeft(s);
    var r := Strip(s);
    var k := |s| - |left|;
    StripLeftDropsSpace(s);
    StripRightDropsSpace(left);
    forall i | 0 <= i < |r|
      ensures r[i] == s[k + i]
    {
      assert r[i] == left[i];
    }
    forall i | k + |r| <= i < |s|
      ensures IsSpace(s[i])
    {
      assert s[i] == left[i - k];
    }
  }

  /** The pieces joined back together with `sep` between them. */
  function Join(parts: seq<string>, sep: char): string
    requires |parts| >= 1
    decreases |parts|
  {
    if |parts| == 1 then parts[0] else parts[0] + [sep] + Join(parts[1..], sep)
  }

  /** `str.split(sep)` with an explicit separator: never empty, no piece holds
      the separator, and joining the pieces gives back the text. */
  function Split(s: string, sep: char): (r: seq<string>)
    ensures |r| >= 1
    ensures forall i :: 0 <= i < |r| ==> sep !in r[i]
    ensures Join(r, sep) == s
    decreases |s|
  {
    if |s| == 0 then
      [""]
    else
      var rest := Split(s[1..], sep);
      if s[0] == sep then
        assert Join([""] + rest, sep) == [sep] + Join(rest, sep);
        [""] + rest
      else
        var r := [[s[0]] + rest[0]] + rest[1..];
        assert |rest| > 1 ==> r[1..] == rest[1..];
        r
  }

  lemma {:induction false} SplitWithoutSeparator(x: string, sep: char)
    requires sep !in x
    ensures Split(x, sep) == [x]
    decreases |x|
  {
    if |x| > 0 {
      SplitWithoutSeparator(x[1..], sep);
    }
  }

  lemma {:induction false} SplitAfterFirstPiece(x: string, y: string, sep: char)
    requires sep !in x
    ensures Split(x + [sep] + y, sep) == [x] + Split(y, sep)
    decreases |x|
  {
    var s := x + [sep] + y;
    if |x| == 0 {
      assert s[1..] == y;
    } else {
      assert s[1..] == x[1..] + [sep] + y;
      SplitAfterFirstPiece(x[1..], y, sep);
      assert [x[0]] + x[1..] == x;
      assert ([x[1..]] + Split(y, sep))[1..] == Split(y, sep);
    }
  }

  /** Splitting undoes joining, for pieces free of the separator. */
  lemma {:induction false} SplitJoin(parts: seq<string>, sep: char)
    requires |parts| >= 1
    requires forall i :: 0 <= i < |parts| ==> sep !in parts[i]
    ensures Split(Join(parts, sep), sep) == parts
    decreases |parts|
  {
    if |parts| == 1 {
      SplitWithoutSeparator(parts[0], sep);
    } else {
      SplitJoin(parts[1..], sep);
      SplitAfterFirstPiece(parts[0], Join(parts[1..], sep), sep);
    }
  }

  /** A split yields a second piece exactly when the separator occurs. */
  lemma SplitHasSecondPiece(s: string, sep: char)
    ensures |Split(s, sep)| >= 2 <==> sep in s
  {
    var r := Split(s, sep);
    if |r| >= 2 {
      assert s == r[0] + [sep] + Join(r[1..], sep);
      assert s[|r[0]|] == sep;
    }
  }

  /** One parsed `ROLES` line. */
  datatype Entry = Entry(branch: string, users: seq<string>)

  /** A non-empty line without `:` once stripped: `fields[1]` raises IndexError. */
  predicate Malformed(line: string) {
    line != "" && ':' !in Strip(line)
  }

  /** `e` is read off `text`: its branch is the text before the first `:`, and
      its users are the text between the first and the second `:` (or the end),
      cut at every `,`, with nothing trimmed. */
  ghost predicate ReadsFields(text: string, e: Entry) {
    && |e.users| >= 1
    && ':' !in e.branch
    && (forall i :: 0 <= i < |e.users| ==> ',' !in e.users[i])
    && ':' !in Join(e.users, ',')
    && var prefix := e.branch + [':'] + Join(e.users, ',');
       && prefix <= text
       && (|prefix| == |text| || text[|prefix|] == ':')
  }

  /** The body of the loop over ROLES lines, for a non-empty line. */
  function ParseLine(line: string): (r: Result<Entry>)
    ensures r.Failure? <==> ':' !in Strip(line)
    ensures r.Failure? ==> r.error == IndexError
  {
    var fields := Split(Strip(line), ':');
    SplitHasSecondPiece(Strip(line), ':');
    if |fields| < 2 then
      Failure(IndexError)
    else
      Success(Entry(fields[0], Split(fields[1], ',')))
  }

  /** A parsed line reads its branch and users off the stripped line. */
  lemma ParseLineReadsFields(line: string)
    requires ParseLine(line).Success?
    ensures ReadsFields(Strip(line), ParseLine(line).value)
  {
    var text := Strip(line);
    var fields := Split(text, ':');
    SplitHasSecondPiece(text, ':');
    var e := ParseLine(line).value;
    assert e.branch == fields[0];
    assert Join(e.users, ',') == fields[1];
    assert text == fields[0] + [':'] + Join(fields[1..], ':');
    if |fields| == 2 {
      assert Join(fields[1..], ':') == fields[1];
    } else {
      assert Join(fields[1..], ':') == fields[1] + [':'] + Join(fields[2..], ':');
    }
    var prefix := e.branch + [':'] + Join(e.users, ',');
    assert text == prefix + text[|prefix|..];
  }

  /** Some line of `lines` is malformed. */
  ghost predicate HasMalformedLine(lines: seq<string>) {
    exists i :: 0 <= i < |lines| && Malformed(lines[i])
  }

  /** Line `i` is a non-empty line that parses and names branch `b`. */
  ghost predicate Defines(lines: seq<string>, i: int, b: string)
    requires 0 <= i < |lines|
  {
    LineDefines(lines[i], b)
  }

  /** `line` is non-empty, parses, and names branch `b`. */
  ghost predicate LineDefines(line: string, b: string) {
    line != "" && ParseLine(line).Success? && ParseLine(line).value.branch == b
  }

  /** One turn of the loop over the lines of `ROLES`: a blank line changes
      nothing, a malformed one raises IndexError, and any other line sets the
      branch it names to its users, leaving every other branch as it was. */
  function AddLine(m: map<string, seq<string>>, line: string): (r: Result<map<string, seq<string>>>)
    ensures r.Failure? <==> Malformed(line)
    ensures r.Failure? ==> r.error == IndexError
    ensures r.Success? ==> forall b ::
      && (LineDefines(line, b) ==> b in r.value && r.value[b] == ParseLine(line).value.users)
      && (!LineDefines(line, b) ==> (b in r.value <==> b in m) && (b in m ==> r.value[b] == m[b]))
  {
    if line == "" then
      Success(m)
    else
      match ParseLine(line)
      case Failure(e) => Failure(e)
      case Success(entry) => Success(m[entry.branch := entry.users])
  }

  /** The loop over the lines of `ROLES`, building `mergers`: blank lines are
      skipped, and the first malformed line raises IndexError. */
  function ParseLines(lines: seq<string>): (r: Result<map<string, seq<string>>>)
    ensures r.Failure? <==> HasMalformedLine(lines)
    ensures r.Failure? ==> r.error == IndexError
    decreases |lines|
  {
    if lines == [] then
      Success(map[])
    else
      var prefix := lines[..|lines| - 1];
      assert forall i :: 0 <= i < |prefix| ==> prefix[i] == lines[i];
      match ParseLines(prefix)
      case Failure(e) => Failure(e)
      case Success(m) => AddLine(m, lines[|lines| - 1])
  }

  /** What the last line does to branch `b`: sets it when it names `b`, and
      leaves it as it was otherwise. */
  lemma ParseLinesStep(lines: seq<string>, b: string)
    requires |lines| > 0 && ParseLines(lines).Success?
    ensures ParseLines(lines[..|lines| - 1]).Success?
    ensures var m := ParseLines(lines[..|lines| - 1]).value;
      var m2 := ParseLines(lines).value;
      var line := lines[|lines| - 1];
      && (LineDefines(line, b) ==> b in m2 && m2[b] == ParseLine(line).value.users)
      && (!LineDefines(line, b) ==> (b in m2 <==> b in m) && (b in m ==> m2[b] == m[b]))
  {
  }

  /** Every branch the parse configures is named by some line. */
  lemma {:induction false} ParsedBranchHasLine(lines: seq<string>, b: string) returns (i: nat)
    requires ParseLines(lines).Success? && b in ParseLines(lines).value
    ensures i < |lines| && Defines(lines, i, b)
    decreases |lines|
  {
    var n := |lines|;
    var prefix := lines[..n - 1];
    ParseLinesStep(lines, b);
    if Defines(lines, n - 1, b) {
      i := n - 1;
    } else {
      i := ParsedBranchHasLine(prefix, b);
      assert prefix[i] == lines[i];
    }
  }

  /** Every branch some line names is configured. */
  lemma {:induction false} LineBranchIsParsed(lines: seq<string>, b: string, i: nat)
    requires ParseLines(lines).Success?
    requires i < |lines| && Defines(lines, i, b)
    ensures b in ParseLines(lines).value
    decreases |lines|
  {
    var n := |lines|;
    var prefix := lines[..n - 1];
    ParseLinesStep(lines, b);
    if i < n - 1 {
      assert prefix[i] == lines[i];
      LineBranchIsParsed(prefix, b, i);
    }
  }

  /** The parse configures exactly the branches some line names. */
  lemma ParsedBranches(lines: seq<string>, b: string)
    requires ParseLines(lines).Success?
    ensures b in ParseLines(lines).value <==> exists i :: 0 <= i < |lines| && Defines(lines, i, b)
  {
    if b in ParseLines(lines).value {
      var i := ParsedBranchHasLine(lines, b);
    }
    if exists i :: 0 <= i < |lines| && Defines(lines, i, b) {
      var i :| 0 <= i < |lines| && Defines(lines, i, b);
      LineBranchIsParsed(lines, b, i);
    }
  }

  /** A branch gets the users of the last line naming it. */
  lemma {:induction false} LastLineWins(lines: seq<string>, b: string, i: nat)
    requires ParseLines(lines).Success?
    requires i < |lines| && Defines(lines, i, b)
    requires forall j :: i < j < |lines| ==> !Defines(lines, j, b)
    ensures b in ParseLines(lines).value
    ensures ParseLines(lines).value[b] == ParseLine(lines[i]).value.users
    decreases |lines|
  {
    var n := |lines|;
    var prefix := lines[..n - 1];
    ParseLinesStep(lines, b);
    if i < n - 1 {
      assert !Defines(lines, n - 1, b);
      forall j | i <= j < n - 1
        ensures Defines(prefix, j, b) <==> Defines(lines, j, b)
      {
        assert prefix[j] == lines[j];
      }
      LastLineWins(prefix, b, i);
    }
  }

  /** The lines of the `ROLES` text parsed into `mergers`. */
  function ParseRoles(data: string): (r: Result<map<string, seq<string>>>)
    ensures r.Failure? <==> HasMalformedLine(Split(data, '\n'))
    ensures r.Failure? ==> r.error == IndexError
  {
    ParseLines(Split(data, '\n'))
  }
}
