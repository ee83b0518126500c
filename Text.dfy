/** String operations the tool borrows from Python: the whitespace class of
    the regular expression `\s` and of `str.strip()`, `str.startswith`,
    `str.split('\n')`, and the slices `s[1:]` and `s[-n:]`. */
module Text {

  /** Python's whitespace (`str.isspace()`, which is also what `\s` matches
      in a `str` pattern): the ASCII space, `\t`, `\n`, `\v`, `\f`, `\r`, the
      separators U+001C..U+001F, U+0085, U+00A0, U+1680, U+2000..U+200A,
      U+2028, U+2029, U+202F, U+205F and U+3000. */
  predicate IsWs(c: char)
  {
    c == ' ' || ('\t' <= c <= '\r') || ('\U{1C}' <= c <= '\U{1F}')
    || c == '\U{85}' || c == '\U{A0}' || c == '\U{1680}'
    || ('\U{2000}' <= c <= '\U{200A}') || c == '\U{2028}' || c == '\U{2029}'
    || c == '\U{202F}' || c == '\U{205F}' || c == '\U{3000}'
  }

  /** The number of whitespace characters `s` starts with. */
  function LeadingWs(s: string): (k: nat)
    ensures k <= |s|
    ensures forall j :: 0 <= j < k ==> IsWs(s[j])
    ensures k == |s| || !IsWs(s[k])
  {
    if s != [] && IsWs(s[0]) then 1 + LeadingWs(s[1..]) else 0
  }

  /** The length of `s` without the whitespace it ends with. */
  function ContentEnd(s: string): (k: nat)
    ensures k <= |s|
    ensures forall j :: k <= j < |s| ==> IsWs(s[j])
    ensures k == 0 || !IsWs(s[k - 1])
  {
    if s != [] && IsWs(s[|s| - 1]) then ContentEnd(s[..|s| - 1]) else |s|
  }

  /** Python `s.lstrip()`. */
  function TrimStart(s: string): string
  {
    s[LeadingWs(s)..]
  }

  /** Python `s.rstrip()`. */
  function TrimEnd(s: string): string
  {
    s[..ContentEnd(s)]
  }

  /** Python `s.strip()`: nothing it returns starts or ends with whitespace. */
  function Strip(s: string): (r: string)
    ensures |r| <= |s|
    ensures r == [] || (!IsWs(r[0]) && !IsWs(r[|r| - 1]))
  {
    TrimEnd(TrimStart(s))
  }

  /** `Strip` removes exactly a whitespace prefix and a whitespace suffix:
      the result is the slice `s[i..j]`, and everything outside it is
      whitespace. */
  lemma {:induction false} StripIsSlice(s: string) returns (i: nat, j: nat)
    ensures i <= j <= |s| && Strip(s) == s[i..j]
    ensures forall k :: 0 <= k < i ==> IsWs(s[k])
    ensures forall k :: j <= k < |s| ==> IsWs(s[k])
  {
    i := LeadingWs(s);
    var t := s[i..];
    j := i + ContentEnd(t);
    assert forall k :: j <= k < |s| ==> s[k] == t[k - i];
  }

  /** The contracts of `LeadingWs` and `ContentEnd` determine them. */
  lemma {:induction false} LeadingWsIs(s: string, k: nat)
    requires k <= |s| && forall j :: 0 <= j < k ==> IsWs(s[j])
    requires k == |s| || !IsWs(s[k])
    ensures LeadingWs(s) == k
  {
  }

  lemma {:induction false} ContentEndIs(s: string, k: nat)
    requires k <= |s| && forall j :: k <= j < |s| ==> IsWs(s[j])
    requires k == 0 || !IsWs(s[k - 1])
    ensures ContentEnd(s) == k
  {
  }

  /** Stripping a text that neither starts nor ends with whitespace, padded
      with whitespace on both sides, gives back the text. */
  lemma {:induction false} StripPadded(lead: string, s: string, trail: string)
    requires forall j :: 0 <= j < |lead| ==> IsWs(lead[j])
    requires forall j :: 0 <= j < |trail| ==> IsWs(trail[j])
    requires s != [] && !IsWs(s[0]) && !IsWs(s[|s| - 1])
    ensures Strip(lead + s + trail) == s
  {
    var x := lead + s + trail;
    assert forall j :: 0 <= j < |lead| ==> x[j] == lead[j];
    assert x[|lead|] == s[0];
    LeadingWsIs(x, |lead|);
    var y := x[|lead|..];
    assert y == s + trail;
    assert forall j :: |s| <= j < |y| ==> y[j] == trail[j - |s|];
    assert y[|s| - 1] == s[|s| - 1];
    ContentEndIs(y, |s|);
    assert y[..|s|] == s;
  }

  /** Python `s.startswith(prefix)`. */
  predicate StartsWith(s: string, prefix: string)
  {
    |prefix| <= |s| && s[..|prefix|] == prefix
  }

  /** Python `s[1:]`: everything after the first character, or "" for "". */
  function DropFirst(s: string): (r: string)
    ensures s == [] ==> r == []
    ensures s != [] ==> s == [s[0]] + r
  {
    if s == [] then [] else s[1..]
  }

  lemma {:induction false} DropFirstOf(c: char, rest: string)
    ensures DropFirst([c] + rest) == rest
  {
  }

  /** Python `s[-n:]`: the last `n` characters, or all of `s` if it is
      shorter than that. For `n == 0` the slice is `s[0:]`, all of `s`. */
  function LastN(s: string, n: nat): (r: string)
    ensures |r| == if n == 0 || |s| <= n then |s| else n
    ensures s == s[..|s| - |r|] + r
  {
    if n == 0 || |s| <= n then s else s[|s| - n..]
  }

  /** Python `s.endswith(suffix)`. */
  predicate EndsWith(s: string, suffix: string)
  {
    |suffix| <= |s| && s[|s| - |suffix|..] == suffix
  }

  /** The position of the first newline of `s`. */
  function FirstNewline(s: string): (k: nat)
    requires '\n' in s
    ensures k < |s| && s[k] == '\n' && '\n' !in s[..k]
  {
    if s[0] == '\n' then 0
    else
      assert '\n' in s[1..] by { var i :| 0 <= i < |s| && s[i] == '\n'; assert s[1..][i - 1] == '\n'; }
      var k := FirstNewline(s[1..]) + 1;
      assert s[..k] == [s[0]] + s[1..][..k - 1];
      k
  }

  /** The contract of `FirstNewline` determines it. */
  lemma {:induction false} FirstNewlineIs(s: string, k: nat)
    requires k < |s| && s[k] == '\n' && '\n' !in s[..k]
    ensures FirstNewline(s) == k
  {
  }

  /** What the regular expression `.*` matches at the start of `s`: the
      characters before the first newline. */
  function UpToNewline(s: string): (r: string)
    ensures '\n' !in r && StartsWith(s, r)
    ensures r == s || s[|r|] == '\n'
  {
    if '\n' in s then s[..FirstNewline(s)] else s
  }

  /** Python `s.split('\n')`: the pieces between newlines, always at least
      one, and the last one is "" when `s` ends with a newline. */
  function SplitLines(s: string): (r: seq<string>)
    ensures |r| >= 1
    ensures forall i :: 0 <= i < |r| ==> '\n' !in r[i]
    decreases |s|
  {
    if '\n' !in s then [s]
    else
      var k := FirstNewline(s);
      [s[..k]] + SplitLines(s[k + 1..])
  }

  /** A text ending with a newline splits into one extra, empty, piece. */
  lemma {:induction false} SplitLinesTrailingNewline(s: string)
    ensures SplitLines(s + "\n") == SplitLines(s) + [""]
    decreases |s|
  {
    var t := s + "\n";
    if '\n' !in s {
      assert t[..|s|] == s;
      FirstNewlineIs(t, |s|);
      assert t[|s| + 1..] == "";
    } else {
      var k := FirstNewline(s);
      assert t[..k] == s[..k];
      FirstNewlineIs(t, k);
      assert t[k + 1..] == s[k + 1..] + "\n";
      SplitLinesTrailingNewline(s[k + 1..]);
    }
  }

  /** Cutting `s` around its newline at `k`. */
  lemma {:induction false} SplitAround(s: string, k: nat)
    requires k < |s| && s[k] == '\n'
    ensures s == s[..k] + "\n" + s[k + 1..]
  {
  }

  /** Python `'\n'.join(lines)`. */
  function JoinLines(lines: seq<string>): string
    requires |lines| >= 1
  {
    if |lines| == 1 then lines[0] else lines[0] + "\n" + JoinLines(lines[1..])
  }

  /** Splitting loses nothing: joining the pieces gives back the text. */
  lemma {:induction false} JoinSplitLines(s: string)
    ensures JoinLines(SplitLines(s)) == s
    decreases |s|
  {
    if '\n' in s {
      var k := FirstNewline(s);
      JoinSplitLines(s[k + 1..]);
      SplitAround(s, k);
    }
  }

  /** The first newline of a join ends its first piece. */
  lemma {:induction false} JoinLinesFirst(lines: seq<string>)
    requires |lines| > 1 && '\n' !in lines[0]
    ensures '\n' in JoinLines(lines) && FirstNewline(JoinLines(lines)) == |lines[0]|
    ensures JoinLines(lines)[..|lines[0]|] == lines[0]
    ensures JoinLines(lines)[|lines[0]| + 1..] == JoinLines(lines[1..])
  {
    var s := JoinLines(lines);
    var n := |lines[0]|;
    assert s == lines[0] + "\n" + JoinLines(lines[1..]);
    assert s[..n] == lines[0];
    FirstNewlineIs(s, n);
  }

  /** Splitting the join of newline-free pieces gives the pieces back. */
  lemma {:induction false} SplitJoinLines(lines: seq<string>)
    requires |lines| >= 1
    requires forall i :: 0 <= i < |lines| ==> '\n' !in lines[i]
    ensures SplitLines(JoinLines(lines)) == lines
  {
    if |lines| > 1 {
      JoinLinesFirst(lines);
      SplitJoinLines(lines[1..]);
      assert lines == [lines[0]] + lines[1..];
    }
  }
}
