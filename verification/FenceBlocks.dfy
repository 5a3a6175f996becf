/**
 * Which lines of a whole text maskCode blanks, and which are in fenced code by section 4.5 of
 * CommonMark, line endings included.
 */
module FenceBlocks {
  import opened Prelude
  import opened CodeMask
  import opened FenceStandard

  // ---------------------------------------------------------------- lines

  /** Section 2.1 of CommonMark: a line ends at LF, at CR LF, and at a CR alone. */
  function StandardLines(s: string): (lines: seq<string>)
    ensures lines != []
    decreases |s|
  {
    if s == [] then [[]]
    else if s[0] == '\n' then [[]] + StandardLines(s[1..])
    else if s[0] == '\r' then [[]] + StandardLines(if |s| > 1 && s[1] == '\n' then s[2..] else s[1..])
    else
      var rest := StandardLines(s[1..]);
      [[s[0]] + rest[0]] + rest[1..]
  }

  function StripCr(line: string): string {
    if line != [] && line[|line| - 1] == '\r' then line[..|line| - 1] else line
  }

  function WithoutCr(lines: seq<string>): (r: seq<string>)
    ensures |r| == |lines| && forall k :: 0 <= k < |r| ==> r[k] == StripCr(lines[k])
  {
    seq(|lines|, k requires 0 <= k < |lines| => StripCr(lines[k]))
  }

  /** How many carriage returns no line feed follows. */
  function LoneCrs(s: string): nat {
    if s == [] then 0
    else (if s[0] == '\r' && !(|s| > 1 && s[1] == '\n') then 1 else 0) + LoneCrs(s[1..])
  }

  lemma StripCrBehind(c: char, line: string)
    requires c != '\r' || line != []
    ensures StripCr([c] + line) == [c] + StripCr(line)
  {
    if line != [] {
      assert ([c] + line)[..|line|] == [c] + line[..|line| - 1];
    }
  }

  lemma WithoutCrCons(line: string, lines: seq<string>)
    ensures WithoutCr([line] + lines) == [StripCr(line)] + WithoutCr(lines)
  {
  }

  lemma CrLfLine(s: string)
    requires |s| > 1 && s[0] == '\r' && s[1] == '\n'
    ensures Split(s) == [['\r']] + Split(s[2..]) && StandardLines(s) == [[]] + StandardLines(s[2..])
    ensures LoneCrs(s) == LoneCrs(s[2..])
  {
    var rest := Split(s[1..]);
    assert s[1..][1..] == s[2..] && s[1..][0] == '\n';
    assert rest[0] == [] && rest[1..] == Split(s[2..]);
    assert [s[0]] + rest[0] == ['\r'];
  }

  lemma {:induction false} LineCount(s: string)
    ensures |StandardLines(s)| == |Split(s)| + LoneCrs(s)
    decreases |s|
  {
    if s != [] {
      if s[0] == '\r' && |s| > 1 && s[1] == '\n' {
        CrLfLine(s);
        LineCount(s[2..]);
      } else {
        LineCount(s[1..]);
      }
    }
  }

  lemma CharLine(s: string)
    requires s != [] && s[0] != '\n' && s[0] != '\r' && StandardLines(s[1..]) == WithoutCr(Split(s[1..]))
    ensures StandardLines(s) == WithoutCr(Split(s))
  {
    var rest := Split(s[1..]);
    Halves(rest, 1);
    assert rest[..1] == [rest[0]];
    WithoutCrCons(rest[0], rest[1..]);
    WithoutCrCons([s[0]] + rest[0], rest[1..]);
    StripCrBehind(s[0], rest[0]);
  }

  lemma {:induction false} CrLfLines(s: string)
    requires LoneCrs(s) == 0
    ensures StandardLines(s) == WithoutCr(Split(s))
    decreases |s|
  {
    if s == [] {
    } else if s[0] == '\r' {
      CrLfLine(s);
      CrLfLines(s[2..]);
      WithoutCrCons(['\r'], Split(s[2..]));
    } else if s[0] == '\n' {
      CrLfLines(s[1..]);
      WithoutCrCons([], Split(s[1..]));
    } else {
      CrLfLines(s[1..]);
      CharLine(s);
    }
  }

  /**
   * Splitting at LF gives the lines of the standard, but for the CR of a CR LF at their ends, if
   * and only if every CR is followed by an LF.
   */
  lemma LinesAgreeIff(s: string)
    ensures StandardLines(s) == WithoutCr(Split(s)) <==> LoneCrs(s) == 0
  {
    LineCount(s);
    if LoneCrs(s) == 0 {
      CrLfLines(s);
    }
  }

  lemma StartsAlike(line: string, indent: nat, f: Fence)
    ensures StartsWithFence(line, indent, f) <==> StartsWithFence(StripCr(line), indent, f)
  {
    var body := StripCr(line);
    assert forall k :: 0 <= k < |body| ==> body[k] == line[k];
    if StartsWithFence(line, indent, f) {
      assert line[indent + f.length - 1] == f.mark;
    }
  }

  /** A CR at the end of a line does not change how the code reads it. */
  lemma ReadsAlike(line: string)
    ensures FenceOf(StripCr(line)) == FenceOf(line)
  {
    if FenceOf(line).Some? {
      var f := FenceOf(line).value;
      FenceStarts(line, f);
      StartsAlike(line, Indent(line), f);
      StartIsFence(StripCr(line), Indent(line), f);
    } else if FenceOf(StripCr(line)).Some? {
      var f := FenceOf(StripCr(line)).value;
      FenceStarts(StripCr(line), f);
      StartsAlike(line, Indent(StripCr(line)), f);
      StartIsFence(line, Indent(StripCr(line)), f);
    }
  }

  // ---------------------------------------------------------------- the open block, line by line

  function CodeNext(fence: Option<Fence>, line: string): Option<Fence> {
    match fence
    case Some(open) => if CloseFence(open, line) then None else fence
    case None => FenceOf(line)
  }

  /** The block that is open behind `lines`, in the code. */
  function CodeAfter(lines: seq<string>): Option<Fence> {
    if lines == [] then None else CodeNext(CodeAfter(lines[..|lines| - 1]), lines[|lines| - 1])
  }

  ghost function StandardFence(line: string): Option<Fence> {
    if f :| StandardOpens(line, f) then Some(f) else None
  }

  ghost function StandardNext(fence: Option<Fence>, line: string): Option<Fence> {
    match fence
    case Some(open) => if StandardCloses(open, line) then None else fence
    case None => StandardFence(line)
  }

  /** The block that is open behind `lines`, by the standard. */
  ghost function StandardAfter(lines: seq<string>): Option<Fence> {
    if lines == [] then None else StandardNext(StandardAfter(lines[..|lines| - 1]), lines[|lines| - 1])
  }

  /** Is the line blanked, behind this block? */
  predicate Blanks(fence: Option<Fence>, line: string) {
    fence.Some? || FenceOf(line).Some?
  }

  ghost predicate StandardBlanks(fence: Option<Fence>, line: string) {
    fence.Some? || StandardFence(line).Some?
  }

  /** What a line must be for the code and the standard to make the same of it. */
  predicate Conforms(fence: Option<Fence>, line: string) {
    match fence
    case Some(open) => CloseFence(open, line) ==> SpacesOnly(line) && BlankBehind(line)
    case None => FenceOf(line).Some? ==>
      SpacesOnly(line) && (FenceOf(line).value.mark == '`' ==> NoBacktickBehind(line))
  }

  lemma StandardFenceIs(line: string)
    ensures StandardFence(line) == if Conforms(None, line) then FenceOf(line) else None
  {
    forall f
      ensures StandardOpens(line, f) <==> FenceOf(line) == Some(f) && Conforms(None, line)
    {
      OpensIff(line, f);
    }
  }

  ghost predicate ValidOption(fence: Option<Fence>) {
    fence.Some? ==> ValidFence(fence.value)
  }

  lemma FenceIsValid(line: string)
    ensures ValidOption(FenceOf(line))
  {
    if FenceOf(line).Some? {
      FenceStarts(line, FenceOf(line).value);
    }
  }

  lemma {:induction false} CodeIsValid(lines: seq<string>)
    ensures ValidOption(CodeAfter(lines))
  {
    if lines != [] {
      CodeIsValid(lines[..|lines| - 1]);
      FenceIsValid(lines[|lines| - 1]);
    }
  }

  /** Behind the same block the same block stays open exactly if the line conforms. */
  lemma NextAgreesIff(fence: Option<Fence>, line: string)
    requires ValidOption(fence)
    ensures CodeNext(fence, line) == StandardNext(fence, line) <==> Conforms(fence, line)
  {
    match fence
    case Some(open) => ClosesIff(open, line);
    case None => StandardFenceIs(line);
  }

  ghost predicate AgreeAt(lines: seq<string>, n: nat)
    requires n <= |lines|
  {
    CodeAfter(lines[..n]) == StandardAfter(lines[..n])
  }

  lemma AfterOneMore(lines: seq<string>, n: nat)
    requires n < |lines|
    ensures CodeAfter(lines[..n + 1]) == CodeNext(CodeAfter(lines[..n]), lines[n])
    ensures StandardAfter(lines[..n + 1]) == StandardNext(StandardAfter(lines[..n]), lines[n])
  {
    assert lines[..n + 1][..n] == lines[..n];
  }

  ghost predicate ConformsAt(lines: seq<string>, n: nat)
    requires n < |lines|
  {
    Conforms(CodeAfter(lines[..n]), lines[n])
  }

  lemma {:induction false} ConformingAgree(lines: seq<string>, n: nat)
    requires n <= |lines| && forall k: nat :: k < n ==> ConformsAt(lines, k)
    ensures AgreeAt(lines, n)
  {
    if n > 0 {
      ConformingAgree(lines, n - 1);
      assert ConformsAt(lines, n - 1);
      CodeIsValid(lines[..n - 1]);
      NextAgreesIff(CodeAfter(lines[..n - 1]), lines[n - 1]);
      AfterOneMore(lines, n - 1);
    }
  }

  lemma AgreeingConforms(lines: seq<string>, n: nat)
    requires n < |lines| && AgreeAt(lines, n) && AgreeAt(lines, n + 1)
    ensures ConformsAt(lines, n)
  {
    CodeIsValid(lines[..n]);
    NextAgreesIff(CodeAfter(lines[..n]), lines[n]);
    AfterOneMore(lines, n);
  }

  /**
   * The code and the standard have the same blocks throughout a text if and only if every line
   * that opens or closes one in the code conforms.
   */
  lemma BlocksAgreeIff(lines: seq<string>)
    ensures (forall n: nat :: n <= |lines| ==> AgreeAt(lines, n)) <==>
            (forall n: nat :: n < |lines| ==> ConformsAt(lines, n))
  {
    if forall n: nat :: n < |lines| ==> ConformsAt(lines, n) {
      forall n: nat | n <= |lines|
        ensures AgreeAt(lines, n)
      {
        ConformingAgree(lines, n);
      }
    }
    if forall n: nat :: n <= |lines| ==> AgreeAt(lines, n) {
      forall n: nat | n < |lines|
        ensures ConformsAt(lines, n)
      {
        assert AgreeAt(lines, n) && AgreeAt(lines, n + 1);
        AgreeingConforms(lines, n);
      }
    }
  }

  // ---------------------------------------------------------------- the lines blanked

  ghost predicate BlankedAlike(lines: seq<string>, n: nat)
    requires n < |lines|
  {
    Blanks(CodeAfter(lines[..n]), lines[n]) <==> StandardBlanks(StandardAfter(lines[..n]), lines[n])
  }

  /** Up to the first line that does not conform, the same lines are blanked; it too, if it closes a block. */
  lemma ConformingBlankAlike(lines: seq<string>, n: nat)
    requires n < |lines| && forall k: nat :: k < n ==> ConformsAt(lines, k)
    ensures BlankedAlike(lines, n) <==> ConformsAt(lines, n) || CodeAfter(lines[..n]).Some?
  {
    ConformingAgree(lines, n);
    StandardFenceIs(lines[n]);
  }

  /**
   * The first line that does not conform shows: on itself if it opens a block, else on the line
   * behind it, unless there is none or that is a fence itself.
   */
  lemma FirstDifferenceShows(lines: seq<string>, n: nat)
    requires n < |lines| && (forall k: nat :: k < n ==> ConformsAt(lines, k)) && !ConformsAt(lines, n)
    ensures CodeAfter(lines[..n]).None? ==> !BlankedAlike(lines, n)
    ensures CodeAfter(lines[..n]).Some? && n + 1 < |lines| ==>
      (BlankedAlike(lines, n + 1) <==> FenceOf(lines[n + 1]).Some?)
    ensures CodeAfter(lines[..n]).Some? && n + 1 == |lines| ==> forall k: nat :: k < |lines| ==> BlankedAlike(lines, k)
  {
    ConformingBlankAlike(lines, n);
    if CodeAfter(lines[..n]).Some? {
      ConformingAgree(lines, n);
      CodeIsValid(lines[..n]);
      AfterOneMore(lines, n);
      NextAgreesIff(CodeAfter(lines[..n]), lines[n]);
      ClosesIff(CodeAfter(lines[..n]).value, lines[n]);
      forall k: nat | k < n
        ensures BlankedAlike(lines, k)
      {
        ConformingBlankAlike(lines, k);
      }
    }
  }

  /** Where all lines conform, the code blanks exactly the lines of the standard's blocks. */
  lemma SameLinesBlanked(lines: seq<string>)
    requires forall n: nat :: n < |lines| ==> ConformsAt(lines, n)
    ensures forall n: nat :: n < |lines| ==> BlankedAlike(lines, n)
  {
    forall n: nat | n < |lines|
      ensures BlankedAlike(lines, n)
    {
      assert ConformsAt(lines, n);
      ConformingBlankAlike(lines, n);
    }
  }

  // ---------------------------------------------------------------- what maskCode does with a text

  function CodeFrom(fence: Option<Fence>, lines: seq<string>): Option<Fence>
    decreases |lines|
  {
    if lines == [] then fence else CodeFrom(CodeNext(fence, lines[0]), lines[1..])
  }

  lemma {:induction false} CodeFromLast(fence: Option<Fence>, lines: seq<string>)
    requires lines != []
    ensures CodeFrom(fence, lines) == CodeNext(CodeFrom(fence, lines[..|lines| - 1]), lines[|lines| - 1])
    decreases |lines|
  {
    if |lines| > 1 {
      CodeFromLast(CodeNext(fence, lines[0]), lines[1..]);
      assert lines[1..][..|lines[1..]| - 1] == lines[..|lines| - 1][1..];
    }
  }

  lemma {:induction false} CodeFromNone(lines: seq<string>)
    ensures CodeFrom(None, lines) == CodeAfter(lines)
  {
    if lines != [] {
      CodeFromLast(None, lines);
      CodeFromNone(lines[..|lines| - 1]);
    }
  }

  lemma {:induction false} OwedLine(mask: InlineMask, fence: Option<Fence>, lines: seq<string>, k: nat)
    requires k < |lines|
    ensures |Owed(mask, fence, lines)| == |lines|
    ensures Owed(mask, fence, lines)[k] ==
      if Blanks(CodeFrom(fence, lines[..k]), lines[k]) then BlankOut(lines[k]) else mask(lines[k])
    decreases |lines|
  {
    OwedStep(mask, fence, lines);
    if |lines| == 1 {
      LoopEnd(mask, CodeNext(fence, lines[0]));
      assert lines[1..] == [];
      LoopEnd(mask, None);
    } else {
      OwedLine(mask, CodeNext(fence, lines[0]), lines[1..], if k == 0 then 0 else k - 1);
    }
    if k > 0 {
      assert lines[..k][1..] == lines[1..][..k - 1];
    }
  }

  /** Each line is blanked, or masked inline, by the block that is open in front of it. */
  lemma MaskedLine(mask: InlineMask, lines: seq<string>, k: nat)
    requires k < |lines|
    ensures |Masked(mask, lines)| == |lines|
    ensures Masked(mask, lines)[k] ==
      if Blanks(CodeAfter(lines[..k]), lines[k]) then BlankOut(lines[k]) else mask(lines[k])
  {
    OwedLine(mask, None, lines, k);
    CodeFromNone(lines[..k]);
  }

  /** CR LF for LF changes none of the code's blocks. */
  lemma {:induction false} CrLfKeepsBlocks(lines: seq<string>)
    ensures CodeAfter(WithoutCr(lines)) == CodeAfter(lines)
  {
    if lines != [] {
      var front := lines[..|lines| - 1];
      CrLfKeepsBlocks(front);
      assert WithoutCr(lines)[..|lines| - 1] == WithoutCr(front);
      ReadsAlike(lines[|lines| - 1]);
    }
  }

  /**
   * Where every CR is followed by an LF, the code's lines are the standard's but for that CR, and
   * the code makes the same of either: what is said of `StandardLines(text)` holds of the text.
   */
  lemma TextReadsAlike(text: string, n: nat)
    requires LoneCrs(text) == 0 && n <= |Split(text)|
    ensures |StandardLines(text)| == |Split(text)|
    ensures CodeAfter(Split(text)[..n]) == CodeAfter(StandardLines(text)[..n])
    ensures n < |Split(text)| ==> FenceOf(Split(text)[n]) == FenceOf(StandardLines(text)[n])
  {
    CrLfLines(text);
    CrLfKeepsBlocks(Split(text)[..n]);
    assert WithoutCr(Split(text))[..n] == WithoutCr(Split(text)[..n]);
    if n < |Split(text)| {
      ReadsAlike(Split(text)[n]);
    }
  }

  lemma {:induction false} CrLfKeepsExtent(open: Fence, lines: seq<string>)
    ensures Extent(open, WithoutCr(lines)) == Extent(open, lines)
  {
    if lines != [] {
      ReadsAlike(lines[0]);
      CrLfKeepsExtent(open, lines[1..]);
      assert WithoutCr(lines)[1..] == WithoutCr(lines[1..]);
    }
  }

  // ---------------------------------------------------------------- witnesses

  lemma NotAFence(line: string)
    requires line != [] && line[0] !in {' ', '\t', '`', '~'}
    ensures FenceOf(line).None? && StandardFence(line).None?
  {
    StandardFenceIs(line);
  }

  lemma Bare(open: Fence, line: string)
    requires (open == Fence('`', 3) && line == "```") || (open == Fence('~', 3) && line == "~~~")
    ensures FenceOf(line) == Some(open) && CloseFence(open, line)
    ensures StandardFence(line) == Some(open) && StandardCloses(open, line)
  {
    StartIsFence(line, 0, open);
    assert Behind(line) == "";
    StandardFenceIs(line);
    ClosesIff(open, line);
  }

  lemma WithText(open: Fence, line: string)
    requires open == Fence('`', 3) && line == "``` x"
    ensures FenceOf(line) == Some(open) && CloseFence(open, line) && !BlankBehind(line) && !StandardCloses(open, line)
  {
    StartIsFence(line, 0, open);
    assert Behind(line)[1] == 'x';
    ClosesIff(open, line);
  }

  lemma CutStates(lines: seq<string>, open: Fence)
    requires |lines| == 4 && FenceOf(lines[0]) == Some(open) && StandardFence(lines[0]) == Some(open)
    requires CloseFence(open, lines[1]) && !StandardCloses(open, lines[1])
    requires FenceOf(lines[2]) == Some(open) && StandardCloses(open, lines[2])
    ensures CodeAfter(lines[..0]) == None == StandardAfter(lines[..0])
    ensures CodeAfter(lines[..1]) == Some(open) == StandardAfter(lines[..1])
    ensures CodeAfter(lines[..2]) == None && StandardAfter(lines[..2]) == Some(open)
    ensures CodeAfter(lines[..3]) == Some(open) && StandardAfter(lines[..3]) == None
  {
    assert lines[..0] == [];
    AfterOneMore(lines, 0);
    AfterOneMore(lines, 1);
    AfterOneMore(lines, 2);
  }

  lemma CutAlike(lines: seq<string>, open: Fence)
    requires |lines| == 4 && FenceOf(lines[0]) == Some(open) && StandardFence(lines[0]) == Some(open)
    requires CloseFence(open, lines[1]) && !StandardCloses(open, lines[1])
    requires FenceOf(lines[2]) == Some(open) && StandardCloses(open, lines[2])
    requires StandardFence(lines[3]) == Some(open)
    ensures BlankedAlike(lines, 0) && BlankedAlike(lines, 1) && BlankedAlike(lines, 2) && BlankedAlike(lines, 3)
    ensures !BlankBehind(lines[1]) ==> !ConformsAt(lines, 1)
  {
    CutStates(lines, open);
  }

  /** A block may be cut in two without any line being blanked differently. */
  lemma CutBlockLooksAlike(lines: seq<string>)
    requires lines == ["```", "``` x", "```", "```"]
    ensures !ConformsAt(lines, 1)
    ensures BlankedAlike(lines, 0) && BlankedAlike(lines, 1) && BlankedAlike(lines, 2) && BlankedAlike(lines, 3)
  {
    Bare(Fence('`', 3), lines[0]);
    WithText(Fence('`', 3), lines[1]);
    CutAlike(lines, Fence('`', 3));
  }

  lemma {:induction false} LineOff(line: string, rest: string)
    requires NewlineFree(line)
    ensures Split(line + ['\n'] + rest) == [line] + Split(rest)
    ensures (forall k :: 0 <= k < |line| ==> line[k] != '\r') ==>
      StandardLines(line + ['\n'] + rest) == [line] + StandardLines(rest)
  {
    var s := line + ['\n'] + rest;
    if line == [] {
      assert s[1..] == rest;
    } else {
      LineOff(line[1..], rest);
      assert s[1..] == line[1..] + ['\n'] + rest;
      assert [s[0]] + line[1..] == line;
    }
  }

  lemma {:induction false} CrOff(line: string, rest: string)
    requires forall k :: 0 <= k < |line| ==> line[k] != '\r' && line[k] != '\n'
    requires rest == [] || rest[0] != '\n'
    ensures StandardLines(line + ['\r'] + rest) == [line] + StandardLines(rest)
  {
    var s := line + ['\r'] + rest;
    if line == [] {
      assert s[1..] == rest;
    } else {
      CrOff(line[1..], rest);
      assert s[1..] == line[1..] + ['\r'] + rest;
      assert [s[0]] + line[1..] == line;
    }
  }

  predicate EndingFree(s: string) {
    forall k :: 0 <= k < |s| ==> s[k] != '\r' && s[k] != '\n'
  }

  lemma {:induction false} LastLine(s: string)
    requires EndingFree(s)
    ensures Split(s) == [s] && StandardLines(s) == [s]
  {
    if s != [] {
      LastLine(s[1..]);
      assert [s[0]] + s[1..] == s;
    }
  }

  /** Four lines of the standard, three of the code. */
  lemma ThreeOrFour(a: string, b: string, c: string)
    requires EndingFree(a) && EndingFree(b) && EndingFree(c) && a != []
    ensures
      var text := a + ['\n'] + (b + ['\r'] + (a + ['\n'] + c));
      Split(text) == [a, b + ['\r'] + a, c] && StandardLines(text) == [a, b, a, c]
  {
    var rest := a + ['\n'] + c;
    LastLine(c);
    LineOff(a, c);
    CrOff(b, rest);
    LineOff(a, b + ['\r'] + rest);
    LineOff(b + ['\r'] + a, c);
    assert b + ['\r'] + rest == (b + ['\r'] + a) + ['\n'] + c;
  }

  lemma LoneCrLines(text: string)
    requires text == "~~~\na\r~~~\nb"
    ensures Split(text) == ["~~~", "a\r~~~", "b"] && StandardLines(text) == ["~~~", "a", "~~~", "b"]
  {
    ThreeOrFour("~~~", "a", "b");
    assert text == "~~~" + ['\n'] + ("a" + ['\r'] + ("~~~" + ['\n'] + "b"));
    assert "a" + ['\r'] + "~~~" == "a\r~~~";
  }

  lemma StillOpen(lines: seq<string>, open: Fence)
    requires |lines| == 3 && FenceOf(lines[0]) == Some(open)
    requires !CloseFence(open, lines[1]) && !CloseFence(open, lines[2])
    ensures CodeAfter(lines) == Some(open)
  {
    assert lines[..0] == [];
    AfterOneMore(lines, 0);
    AfterOneMore(lines, 1);
    AfterOneMore(lines, 2);
    Whole(lines);
  }

  lemma ClosedAgain(lines: seq<string>, open: Fence)
    requires |lines| == 4 && StandardFence(lines[0]) == Some(open) && !StandardCloses(open, lines[1])
    requires StandardCloses(open, lines[2]) && StandardFence(lines[3]).None?
    ensures StandardAfter(lines) == None
  {
    assert lines[..0] == [];
    AfterOneMore(lines, 0);
    AfterOneMore(lines, 1);
    AfterOneMore(lines, 2);
    AfterOneMore(lines, 3);
    Whole(lines);
  }

  /** A CR alone ends a line in the standard only, so the code may also run on too far. */
  lemma LoneCrHidesClosing(text: string)
    requires text == "~~~\na\r~~~\nb"
    ensures CodeAfter(Split(text)) == Some(Fence('~', 3)) && StandardAfter(StandardLines(text)) == None
  {
    var open := Fence('~', 3);
    LoneCrLines(text);
    Bare(open, "~~~");
    NotAFence("a\r~~~");
    NotAFence("a");
    NotAFence("b");
    ClosesIff(open, "a");
    StillOpen(Split(text), open);
    ClosedAgain(StandardLines(text), open);
  }
}
