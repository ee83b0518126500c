/** `get_list_of_comitted_files` of undiff1c: reading the names of modified and added
    files out of the text printed by `git diff-index --name-status` (or, as
    a fallback, `git status --porcelain`). The git processes themselves are
    not modelled: their output arrives as an optional text. */
module StatusParsing {
  import opened Wrappers
  import opened Text
  import opened Seqs

  /** The pattern `^(?:M|A)(\s+)(?P<name>.*)` applied with `re.match`: a
      status letter `M` or `A`, a maximal non-empty run of whitespace, and
      the name, which is what `.*` matches — everything up to the first
      newline. */
  function ParseStatusLine(line: string): (r: Option<string>)
    ensures r.Some? ==> |line| >= 2 && (line[0] == 'M' || line[0] == 'A')
    ensures r.Some? ==> '\n' !in r.value && |r.value| <= |line| - 2
  {
    if |line| >= 2 && (line[0] == 'M' || line[0] == 'A') && IsWs(line[1])
    then Some(UpToNewline(TrimStart(line[1..])))
    else None
  }

  /** Every accepted line starts with `M` or `A`; the name starts at the
      first non-whitespace character after at least one whitespace character,
      and ends at the first newline or at the end of the line. */
  lemma {:induction false} ParseStatusLineSound(line: string, name: string)
    returns (start: nat, end: nat)
    requires ParseStatusLine(line) == Some(name)
    ensures line[0] == 'M' || line[0] == 'A'
    ensures 2 <= start <= end <= |line| && name == line[start..end]
    ensures forall j :: 1 <= j < start ==> IsWs(line[j])
    ensures start == |line| || !IsWs(line[start])
    ensures '\n' !in name && (end == |line| || line[end] == '\n')
  {
    var s := line[1..];
    var w := LeadingWs(s);
    assert IsWs(s[0]);
    start := 1 + w;
    var t := s[w..];
    assert t == line[start..];
    end := start + |name|;
    assert name == t[..|name|];
    assert forall j :: 1 <= j < start ==> line[j] == s[j - 1];
  }

  /** Conversely, a line of that shape is accepted with that name. */
  lemma {:induction false} ParseStatusLineComplete(line: string, start: nat, end: nat)
    requires |line| >= 1 && (line[0] == 'M' || line[0] == 'A')
    requires 2 <= start <= end <= |line|
    requires forall j :: 1 <= j < start ==> IsWs(line[j])
    requires start == |line| || !IsWs(line[start])
    requires '\n' !in line[start..end] && (end == |line| || line[end] == '\n')
    ensures ParseStatusLine(line) == Some(line[start..end])
  {
    assert IsWs(line[1]);
    TrimStartAfterMarker(line, start);
    NameRunIs(line, start, end);
  }

  lemma {:induction false} TrimStartAfterMarker(line: string, start: nat)
    requires 2 <= start <= |line|
    requires forall j :: 1 <= j < start ==> IsWs(line[j])
    requires start == |line| || !IsWs(line[start])
    ensures TrimStart(line[1..]) == line[start..]
  {
    var s := line[1..];
    assert forall j :: 0 <= j < start - 1 ==> s[j] == line[j + 1];
    LeadingWsIs(s, start - 1);
    SliceOfSlice(line, 1, start - 1);
  }

  /** The name is the run from `start` up to the first newline. */
  lemma {:induction false} NameRunIs(line: string, start: nat, end: nat)
    requires start <= end <= |line|
    requires '\n' !in line[start..end] && (end == |line| || line[end] == '\n')
    ensures UpToNewline(line[start..]) == line[start..end]
  {
    var s := line[start..];
    SliceOfSlice(line, start, end - start);
    if '\n' in s {
      FirstNewlineIs(s, end - start);
    } else {
      assert s[..end - start] == s;
    }
  }

  /** Lines that do not start with `M` or `A` followed by whitespace are
      skipped: untracked (`??`), deleted (`D`) and renamed (`R`) entries, and
      two-column porcelain entries such as ` M` and `MM`. */
  lemma {:induction false} ParseStatusLineRejects(line: string)
    requires |line| < 2 || (line[0] != 'M' && line[0] != 'A') || !IsWs(line[1])
    ensures ParseStatusLine(line) == None
  {
  }

  /** `A` followed by two spaces: the whole run of spaces is skipped. */
  lemma ParseAddedLine()
    ensures ParseStatusLine("A  x.xml") == Some("x.xml")
  {
    ParseStatusLineComplete("A  x.xml", 3, 8);
    assert "A  x.xml"[3..8] == "x.xml";
  }

  /** A carriage return (from CRLF output) stays part of the name. */
  lemma ParseModifiedLineWithCr()
    ensures ParseStatusLine("M\tb.xml\r") == Some("b.xml\r")
  {
    ParseStatusLineComplete("M\tb.xml\r", 2, 8);
    assert "M\tb.xml\r"[2..8] == "b.xml\r";
  }

  /** Porcelain entries modified only in the working tree (` M`) or in both
      columns (`MM`) are not reported. */
  lemma ParseTwoColumnLines()
    ensures ParseStatusLine(" M x") == None
    ensures ParseStatusLine("MM x") == None
  {
  }

  /** The names contributed by one line (none or one). */
  function NameOf(line: string): seq<string>
  {
    match ParseStatusLine(line)
    case Some(n) => [n]
    case None => []
  }

  /** The names of the accepted lines, in the order of their lines. */
  function StatusNames(lines: seq<string>): (r: seq<string>)
    ensures |r| <= |lines|
  {
    if lines == [] then [] else NameOf(lines[0]) + StatusNames(lines[1..])
  }

  /** The status of one block of lines does not depend on what follows it,
      so the names keep the order of the lines. */
  lemma {:induction false} StatusNamesAppend(a: seq<string>, b: seq<string>)
    ensures StatusNames(a + b) == StatusNames(a) + StatusNames(b)
  {
    if a == [] {
      assert a + b == b;
    } else {
      assert (a + b)[1..] == a[1..] + b;
      StatusNamesAppend(a[1..], b);
    }
  }

  /** A name is reported exactly when some line carries it. */
  lemma {:induction false} StatusNamesMembers(lines: seq<string>, n: string)
    ensures n in StatusNames(lines) <==>
      exists i :: 0 <= i < |lines| && ParseStatusLine(lines[i]) == Some(n)
  {
    if lines != [] {
      StatusNamesMembers(lines[1..], n);
      if ParseStatusLine(lines[0]) != Some(n) && n in StatusNames(lines) {
        assert n in StatusNames(lines[1..]);
        var i :| 0 <= i < |lines[1..]| && ParseStatusLine(lines[1..][i]) == Some(n);
        assert ParseStatusLine(lines[i + 1]) == Some(n);
      }
      if exists i :: 0 <= i < |lines| && ParseStatusLine(lines[i]) == Some(n) {
        var i :| 0 <= i < |lines| && ParseStatusLine(lines[i]) == Some(n);
        if i > 0 {
          assert ParseStatusLine(lines[1..][i - 1]) == Some(n);
        }
      }
    }
  }

  /** Empty lines (such as the one after the final newline) contribute no
      names. */
  lemma {:induction false} EmptyLineContributesNothing(a: seq<string>, b: seq<string>)
    ensures StatusNames(a + [""] + b) == StatusNames(a + b)
  {
    assert a + [""] + b == a + ([""] + b);
    assert ([""] + b)[1..] == b;
    assert StatusNames([""] + b) == StatusNames(b);
    StatusNamesAppend(a, [""] + b);
    StatusNamesAppend(a, b);
  }

  /** A final newline in git's output changes nothing. */
  lemma {:induction false} TrailingNewlineIgnored(text: string)
    ensures StatusNames(SplitLines(text + "\n")) == StatusNames(SplitLines(text))
  {
    SplitLinesTrailingNewline(text);
    EmptyLineContributesNothing(SplitLines(text), []);
    assert SplitLines(text) + [""] + [] == SplitLines(text) + [""];
    assert SplitLines(text) + [] == SplitLines(text);
  }

  /** One more line adds its own name, if any, at the end. */
  lemma {:induction false} StatusNamesStep(prefix: seq<string>, line: string)
    ensures StatusNames(prefix + [line]) == StatusNames(prefix) + NameOf(line)
  {
    StatusNamesAppend(prefix, [line]);
    assert [line][1..] == [];
  }

  /** The parsing loop: split on newlines, skip empty lines, keep the name
      of every line the pattern accepts. */
  method ParseStatusOutput(text: string) returns (files: seq<string>)
    ensures files == StatusNames(SplitLines(text))
    ensures |files| <= |SplitLines(text)|
  {
    var lines := SplitLines(text);
    files := [];
    for i := 0 to |lines|
      invariant files == StatusNames(lines[..i])
    {
      var result := lines[i];
      PrefixStep(lines, i);
      StatusNamesStep(lines[..i], result);
      if result != "" {
        var m := ParseStatusLine(result);
        if m.Some? {
          files := files + [m.value];
        }
      }
    }
    assert lines[..|lines|] == lines;
  }

  /** `get_list_of_comitted_files`: use the output of the index query when
      it was produced, otherwise that of the working-tree status query, and
      report no files when neither was produced. */
  method GetListOfCommittedFiles(primary: Option<string>, fallback: Option<string>)
    returns (files: seq<string>)
    ensures primary.Some? ==> files == StatusNames(SplitLines(primary.value))
    ensures primary.None? && fallback.Some? ==> files == StatusNames(SplitLines(fallback.value))
    ensures primary.None? && fallback.None? ==> files == []
  {
    files := [];
    var output: string;
    if primary.Some? {
      output := primary.value;
    } else if fallback.Some? {
      output := fallback.value;
    } else {
      return;
    }
    files := ParseStatusOutput(output);
  }
}
