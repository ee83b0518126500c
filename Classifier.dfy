/** The classifying block of undiff1c's `main`: which lines of a file's diff are changes,
    which changes only touch the generated tags of a 1C form template, and
    whether a file-diff consists of nothing else, which makes it eligible to
    be dropped from the index. */
module Classifier {
  import opened Text
  import opened Seqs

  /** One hunk as the diff parser presents it: the source lines (removed and
      context) and the target lines (added and context), each still carrying
      its one-character marker `-`, `+` or a space. */
  datatype Hunk = Hunk(source: seq<string>, target: seq<string>)

  /** The hunks of one modified file, top to bottom. */
  type FileDiff = seq<Hunk>

  datatype Side = Source | Target

  function Lines(h: Hunk, side: Side): seq<string>
  {
    match side
    case Source => h.source
    case Target => h.target
  }

  /** The fixed tag allow-list: the tags of generated identifiers, interval
      bounds and visual positions. */
  const TagList: seq<string> :=
    ["<d3p1:id>", "<d3p1:fullIntervalBegin>", "<d3p1:fullIntervalEnd>", "<d3p1:visualBegin>"]

  /** `not x[:1] == " "`: the line does not start with the context marker.
      An empty string counts as changed. */
  predicate IsChanged(line: string)
  {
    !StartsWith(line, " ")
  }

  /** For a non-empty line only the marker decides. */
  lemma {:induction false} MarkerDecides(line: string)
    requires line != []
    ensures IsChanged(line) <==> line[0] != ' '
  {
    if line[0] != ' ' {
      assert line[..1][0] == line[0];
    }
  }

  /** Python `s.startswith(prefixes)` for a tuple of prefixes. */
  predicate StartsWithAny(s: string, prefixes: seq<string>)
  {
    exists i :: 0 <= i < |prefixes| && StartsWith(s, prefixes[i])
  }

  /** `x[1:].strip().startswith(taglistchange)`: after the marker and the
      surrounding whitespace, the line opens one of the allow-listed tags. */
  predicate IsTagLine(line: string)
  {
    StartsWithAny(Strip(DropFirst(line)), TagList)
  }

  /** Every line of one side, hunk after hunk. */
  function AllLines(fd: FileDiff, side: Side): seq<string>
  {
    if fd == [] then [] else Lines(fd[0], side) + AllLines(fd[1..], side)
  }

  /** `modifiedsource` / `modifiedtarget`: the changed lines of each hunk,
      concatenated in hunk order. */
  function ChangedLines(fd: FileDiff, side: Side): seq<string>
  {
    if fd == [] then [] else Filter(IsChanged, Lines(fd[0], side)) + ChangedLines(fd[1..], side)
  }

  /** `sourcetags` / `targettags`: the changed lines that open an
      allow-listed tag. */
  function MatchedLines(fd: FileDiff, side: Side): (r: seq<string>)
    ensures |r| <= |ChangedLines(fd, side)|
  {
    Filter(IsTagLine, ChangedLines(fd, side))
  }

  /** The condition under which the file is reset: as many matched lines as
      changed lines on each side, and as many on one side as on the other. */
  predicate Eligible(fd: FileDiff)
  {
    |MatchedLines(fd, Source)| == |ChangedLines(fd, Source)|
    && |MatchedLines(fd, Target)| == |ChangedLines(fd, Target)|
    && |MatchedLines(fd, Source)| == |MatchedLines(fd, Target)|
  }

  lemma {:induction false} ChangedLinesAppend(a: FileDiff, b: FileDiff, side: Side)
    ensures ChangedLines(a + b, side) == ChangedLines(a, side) + ChangedLines(b, side)
  {
    if a == [] {
      assert a + b == b;
    } else {
      assert (a + b)[1..] == a[1..] + b;
      ChangedLinesAppend(a[1..], b, side);
    }
  }

  lemma {:induction false} ChangedLinesSingle(h: Hunk, side: Side)
    ensures ChangedLines([h], side) == Filter(IsChanged, Lines(h, side))
  {
    assert [h][1..] == [];
  }

  /** The changed lines are exactly the lines of the side, in order, whose
      first character is not a space. */
  lemma {:induction false} ChangedLinesAreFilteredLines(fd: FileDiff, side: Side)
    ensures ChangedLines(fd, side) == Filter(IsChanged, AllLines(fd, side))
  {
    if fd != [] {
      ChangedLinesAreFilteredLines(fd[1..], side);
      FilterAppend(IsChanged, Lines(fd[0], side), AllLines(fd[1..], side));
    }
  }

  /** A context line is never counted as a change. */
  lemma {:induction false} ContextLinesNotChanged(fd: FileDiff, side: Side, line: string)
    requires StartsWith(line, " ")
    ensures line !in ChangedLines(fd, side)
  {
    ChangedLinesAreFilteredLines(fd, side);
    FilterElements(IsChanged, AllLines(fd, side));
  }

  /** A hunk holding only context lines, inserted anywhere, changes neither
      side's changed and matched lines, hence not the decision. */
  lemma {:induction false} ContextHunkChangesNothing(a: FileDiff, h: Hunk, b: FileDiff)
    requires forall j :: 0 <= j < |h.source| ==> StartsWith(h.source[j], " ")
    requires forall j :: 0 <= j < |h.target| ==> StartsWith(h.target[j], " ")
    ensures ChangedLines(a + [h] + b, Source) == ChangedLines(a + b, Source)
    ensures ChangedLines(a + [h] + b, Target) == ChangedLines(a + b, Target)
    ensures Eligible(a + [h] + b) == Eligible(a + b)
  {
    ContextHunkOneSide(a, h, b, Source);
    ContextHunkOneSide(a, h, b, Target);
  }

  lemma {:induction false} ContextHunkOneSide(a: FileDiff, h: Hunk, b: FileDiff, side: Side)
    requires forall j :: 0 <= j < |Lines(h, side)| ==> StartsWith(Lines(h, side)[j], " ")
    ensures ChangedLines(a + [h] + b, side) == ChangedLines(a + b, side)
  {
    assert a + [h] + b == a + ([h] + b);
    ChangedLinesAppend(a, [h] + b, side);
    ChangedLinesAppend(a, b, side);
    assert ([h] + b)[1..] == b;
    FilterNone(IsChanged, Lines(h, side));
  }

  /** On each side the matched lines are the changed lines with some left
      out, in the same order; there are as many as changed lines exactly
      when every changed line opens an allow-listed tag. */
  lemma {:induction false} MatchedAreChangedSubsequence(fd: FileDiff, side: Side)
    ensures IsSubsequence(MatchedLines(fd, side), ChangedLines(fd, side))
    ensures |MatchedLines(fd, side)| <= |ChangedLines(fd, side)|
    ensures |MatchedLines(fd, side)| == |ChangedLines(fd, side)|
      <==> forall i :: 0 <= i < |ChangedLines(fd, side)| ==> IsTagLine(ChangedLines(fd, side)[i])
  {
    FilterIsSubsequence(IsTagLine, ChangedLines(fd, side));
    FilterKeepsAll(IsTagLine, ChangedLines(fd, side));
  }

  /** The decision in terms of what the lines say: every changed source line
      and every changed target line opens an allow-listed tag, and both sides
      have the same number of them. */
  lemma {:induction false} EligibleIff(fd: FileDiff)
    ensures Eligible(fd) <==>
      (forall i :: 0 <= i < |ChangedLines(fd, Source)| ==> IsTagLine(ChangedLines(fd, Source)[i]))
      && (forall i :: 0 <= i < |ChangedLines(fd, Target)| ==> IsTagLine(ChangedLines(fd, Target)[i]))
      && |ChangedLines(fd, Source)| == |ChangedLines(fd, Target)|
  {
    MatchedAreChangedSubsequence(fd, Source);
    MatchedAreChangedSubsequence(fd, Target);
  }

  /** One changed line on either side that opens no allow-listed tag
      prevents the reset. */
  lemma {:induction false} UnmatchedLinePreventsReset(fd: FileDiff, side: Side, i: nat)
    requires i < |ChangedLines(fd, side)| && !IsTagLine(ChangedLines(fd, side)[i])
    ensures !Eligible(fd)
  {
    MatchedAreChangedSubsequence(fd, side);
  }

  /** Different numbers of changed lines on the two sides prevent the reset,
      however many of them open allow-listed tags. */
  lemma {:induction false} UnequalCountsPreventReset(fd: FileDiff)
    requires |ChangedLines(fd, Source)| != |ChangedLines(fd, Target)|
    ensures !Eligible(fd)
  {
    EligibleIff(fd);
  }

  /** The empty case: with no changed line on either side the condition holds
      vacuously and the file IS reset. A diff without hunks, or whose hunks
      hold context lines only, is such a case. */
  lemma {:induction false} NoChangesIsEligible(fd: FileDiff)
    requires forall k, j :: 0 <= k < |fd| && 0 <= j < |fd[k].source| ==> StartsWith(fd[k].source[j], " ")
    requires forall k, j :: 0 <= k < |fd| && 0 <= j < |fd[k].target| ==> StartsWith(fd[k].target[j], " ")
    ensures ChangedLines(fd, Source) == [] && ChangedLines(fd, Target) == []
    ensures Eligible(fd)
  {
    if fd != [] {
      NoChangesIsEligible(fd[1..]);
      FilterNone(IsChanged, fd[0].source);
      FilterNone(IsChanged, fd[0].target);
    }
  }

  lemma {:induction false} LineAssoc(m: char, lead: string, tag: string, value: string, trail: string)
    ensures [m] + lead + tag + value + trail == [m] + (lead + (tag + value) + trail)
  {
  }

  /** A marker, any indentation, an allow-listed tag, its value and any
      trailing whitespace (the newline the diff parser keeps) make a tag
      line. */
  lemma {:induction false} TaggedLineMatches(marker: char, lead: string, t: nat, value: string, trail: string)
    requires t < |TagList|
    requires forall j :: 0 <= j < |lead| ==> IsWs(lead[j])
    requires forall j :: 0 <= j < |trail| ==> IsWs(trail[j])
    requires value == [] || !IsWs(value[|value| - 1])
    ensures IsTagLine([marker] + lead + TagList[t] + value + trail)
  {
    var tag := TagList[t];
    assert |tag| >= 2 && tag[0] == '<' && tag[|tag| - 1] == '>';
    var s := tag + value;
    assert s[0] == '<';
    assert s[|s| - 1] == if value == [] then tag[|tag| - 1] else value[|value| - 1];
    StripPadded(lead, s, trail);
    LineAssoc(marker, lead, tag, value, trail);
    var line := [marker] + (lead + s + trail);
    assert DropFirst(line) == lead + s + trail;
    assert s[..|tag|] == tag;
    assert StartsWith(Strip(DropFirst(line)), TagList[t]);
  }

  /** A single hunk that replaces one line by another. */
  lemma {:induction false} OneLineHunk(src: string, tgt: string)
    requires IsChanged(src) && IsChanged(tgt)
    ensures ChangedLines([Hunk([src], [tgt])], Source) == [src]
    ensures ChangedLines([Hunk([src], [tgt])], Target) == [tgt]
    ensures Eligible([Hunk([src], [tgt])]) <==> IsTagLine(src) && IsTagLine(tgt)
  {
    var fd := [Hunk([src], [tgt])];
    assert fd[1..] == [];
    assert [src][1..] == [] && [tgt][1..] == [];
  }

  lemma RemovedIdentifierLine()
    ensures IsChanged("-  <d3p1:id>5</d3p1:id>\n") && IsTagLine("-  <d3p1:id>5</d3p1:id>\n")
  {
    assert "-  <d3p1:id>5</d3p1:id>\n" == ['-'] + "  " + TagList[0] + "5</d3p1:id>" + "\n";
    TaggedLineMatches('-', "  ", 0, "5</d3p1:id>", "\n");
    MarkerDecides("-  <d3p1:id>5</d3p1:id>\n");
  }

  lemma AddedIdentifierLine()
    ensures IsChanged("+  <d3p1:id>7</d3p1:id>\n") && IsTagLine("+  <d3p1:id>7</d3p1:id>\n")
  {
    assert "+  <d3p1:id>7</d3p1:id>\n" == ['+'] + "  " + TagList[0] + "7</d3p1:id>" + "\n";
    TaggedLineMatches('+', "  ", 0, "7</d3p1:id>", "\n");
    MarkerDecides("+  <d3p1:id>7</d3p1:id>\n");
  }

  /** One removed and one added identifier line: reset. */
  lemma ScenarioIdentifierChanged()
    ensures Eligible([Hunk(["-  <d3p1:id>5</d3p1:id>\n"], ["+  <d3p1:id>7</d3p1:id>\n"])])
  {
    RemovedIdentifierLine();
    AddedIdentifierLine();
    OneLineHunk("-  <d3p1:id>5</d3p1:id>\n", "+  <d3p1:id>7</d3p1:id>\n");
  }

  /** Every allow-listed tag starts with `<d`. */
  lemma {:induction false} NotTagWhenSecondChar(body: string)
    requires |body| >= 2 && body[1] != 'd'
    ensures !StartsWithAny(body, TagList)
  {
    forall i | 0 <= i < |TagList|
      ensures !StartsWith(body, TagList[i])
    {
      assert TagList[i][1] == 'd';
    }
  }

  /** A marker, any indentation, a text whose second character is not `d`
      and any trailing whitespace make a line that is not a tag line. */
  lemma {:induction false} UntaggedLine(marker: char, lead: string, body: string, trail: string)
    requires forall j :: 0 <= j < |lead| ==> IsWs(lead[j])
    requires forall j :: 0 <= j < |trail| ==> IsWs(trail[j])
    requires |body| >= 2 && !IsWs(body[0]) && !IsWs(body[|body| - 1]) && body[1] != 'd'
    ensures !IsTagLine([marker] + lead + body + trail)
  {
    var line := [marker] + lead + body + trail;
    assert line == [marker] + (lead + body + trail);
    DropFirstOf(marker, lead + body + trail);
    StripPadded(lead, body, trail);
    NotTagWhenSecondChar(body);
  }

  lemma TitleLine()
    ensures IsChanged("+  <title>New</title>\n") && !IsTagLine("+  <title>New</title>\n")
  {
    var body := "<title>New</title>";
    assert "+  <title>New</title>\n" == ['+'] + "  " + body + "\n";
    assert body[0] == '<' && body[1] == 't' && body[|body| - 1] == '>';
    UntaggedLine('+', "  ", body, "\n");
    MarkerDecides("+  <title>New</title>\n");
  }

  /** An identifier line replaced by a title line: no reset. */
  lemma ScenarioTitleChanged()
    ensures !Eligible([Hunk(["-  <d3p1:id>5</d3p1:id>\n"], ["+  <title>New</title>\n"])])
  {
    RemovedIdentifierLine();
    TitleLine();
    OneLineHunk("-  <d3p1:id>5</d3p1:id>\n", "+  <title>New</title>\n");
  }

  /** Every changed line is a tag line, but the first hunk removes two of
      them and adds one: no reset. */
  lemma ScenarioAsymmetricTags()
    ensures !Eligible([
      Hunk(["-<d3p1:id>1</d3p1:id>", "-<d3p1:visualBegin>true</d3p1:visualBegin>"], ["+<d3p1:id>2</d3p1:id>"]),
      Hunk([" <x/>", "-<d3p1:id>3</d3p1:id>"], [" <x/>", "+<d3p1:id>4</d3p1:id>"])])
  {
    var s1 := ["-<d3p1:id>1</d3p1:id>", "-<d3p1:visualBegin>true</d3p1:visualBegin>"];
    var t1 := ["+<d3p1:id>2</d3p1:id>"];
    var s2 := [" <x/>", "-<d3p1:id>3</d3p1:id>"];
    var t2 := [" <x/>", "+<d3p1:id>4</d3p1:id>"];
    var fd := [Hunk(s1, t1), Hunk(s2, t2)];
    assert |Filter(IsChanged, s1)| == 2 by {
      MarkerDecides(s1[0]);
      MarkerDecides(s1[1]);
      FilterKeepsAll(IsChanged, s1);
    }
    assert |Filter(IsChanged, t1)| == 1 by {
      MarkerDecides(t1[0]);
      FilterKeepsAll(IsChanged, t1);
    }
    assert |Filter(IsChanged, s2)| == 1 by {
      MarkerDecides(s2[0]);
      MarkerDecides(s2[1]);
      assert s2[1..][1..] == [];
    }
    assert |Filter(IsChanged, t2)| == 1 by {
      MarkerDecides(t2[0]);
      MarkerDecides(t2[1]);
      assert t2[1..][1..] == [];
    }
    assert fd == [Hunk(s1, t1)] + [Hunk(s2, t2)];
    ChangedLinesAppend([Hunk(s1, t1)], [Hunk(s2, t2)], Source);
    ChangedLinesAppend([Hunk(s1, t1)], [Hunk(s2, t2)], Target);
    ChangedLinesSingle(Hunk(s1, t1), Source);
    ChangedLinesSingle(Hunk(s1, t1), Target);
    ChangedLinesSingle(Hunk(s2, t2), Source);
    ChangedLinesSingle(Hunk(s2, t2), Target);
    UnequalCountsPreventReset(fd);
  }

  /** The hunk loop: append each hunk's changed lines to those of the hunks
      before it. */
  method CollectChanged(fd: FileDiff) returns (modifiedSource: seq<string>, modifiedTarget: seq<string>)
    ensures modifiedSource == ChangedLines(fd, Source)
    ensures modifiedTarget == ChangedLines(fd, Target)
  {
    modifiedSource, modifiedTarget := [], [];
    for i := 0 to |fd|
      invariant modifiedSource == ChangedLines(fd[..i], Source)
      invariant modifiedTarget == ChangedLines(fd[..i], Target)
    {
      var hunk := fd[i];
      PrefixStep(fd, i);
      ChangedLinesAppend(fd[..i], [hunk], Source);
      ChangedLinesAppend(fd[..i], [hunk], Target);
      modifiedSource := modifiedSource + Filter(IsChanged, hunk.source);
      modifiedTarget := modifiedTarget + Filter(IsChanged, hunk.target);
    }
    assert fd[..|fd|] == fd;
  }

  /** The decision for one parsed file-diff. */
  method CheckFileDiff(fd: FileDiff) returns (eligible: bool)
    ensures eligible == Eligible(fd)
  {
    var modifiedSource, modifiedTarget := CollectChanged(fd);
    var sourceTags := Filter(IsTagLine, modifiedSource);
    var targetTags := Filter(IsTagLine, modifiedTarget);
    eligible := |sourceTags| == |modifiedSource| && |targetTags| == |modifiedTarget|
      && |sourceTags| == |targetTags|;
  }
}
