/** Where a fenced block begins and ends in maskCode and by section 4.5 of CommonMark, line by line. */
module FenceStandard {
  import opened Prelude
  import opened CodeMask

  predicate ValidFence(f: Fence) {
    f.length >= 3 && f.mark in {'`', '~'}
  }

  // ---------------------------------------------------------------- the standard, on lines without their ending

  /** Up to three spaces, then a maximal run of marks; behind backticks no further backtick. */
  ghost predicate OpensAt(line: string, indent: nat, f: Fence) {
    && StartsWithFence(line, indent, f)
    && (forall k :: 0 <= k < indent ==> line[k] == ' ')
    && (f.mark == '`' ==> forall k :: indent + f.length <= k < |line| ==> line[k] != '`')
  }

  ghost predicate StandardOpens(line: string, f: Fence) {
    exists indent: nat :: OpensAt(line, indent, f)
  }

  /** Up to three spaces, at least as many marks as opened the block, then only spaces and tabs. */
  ghost predicate ClosesAt(open: Fence, line: string, indent: nat, n: nat) {
    && indent <= 3 && open.length <= n && indent + n <= |line|
    && (forall k :: 0 <= k < indent ==> line[k] == ' ')
    && (forall k :: indent <= k < indent + n ==> line[k] == open.mark)
    && (forall k :: indent + n <= k < |line| ==> line[k] in {' ', '\t'})
  }

  ghost predicate StandardCloses(open: Fence, line: string) {
    exists indent: nat, n: nat :: ClosesAt(open, line, indent, n)
  }

  /** How many lines a block opened before `lines` covers by the standard. */
  ghost function StandardExtent(open: Fence, lines: seq<string>): (n: nat)
    ensures n <= |lines|
  {
    if lines == [] then 0
    else if StandardCloses(open, lines[0]) then 1
    else 1 + StandardExtent(open, lines[1..])
  }

  // ---------------------------------------------------------------- single lines

  function Indent(line: string): (n: nat)
    ensures n <= |line|
  {
    LeadingBlanks(line, 3)
  }

  /** The tolerated blanks in front of the marks are spaces, not tabs. */
  predicate SpacesOnly(line: string) {
    forall k :: 0 <= k < Indent(line) ==> line[k] == ' '
  }

  /** What stands behind the marks of a fence line. */
  function Behind(line: string): string
    requires FenceOf(line).Some?
  {
    line[Indent(line) + FenceOf(line).value.length..]
  }

  predicate BlankBehind(line: string)
    requires FenceOf(line).Some?
  {
    forall k :: 0 <= k < |Behind(line)| ==> Behind(line)[k] in {' ', '\t'}
  }

  predicate NoBacktickBehind(line: string)
    requires FenceOf(line).Some?
  {
    forall k :: 0 <= k < |Behind(line)| ==> Behind(line)[k] != '`'
  }

  lemma FenceStarts(line: string, f: Fence)
    requires FenceOf(line) == Some(f)
    ensures StartsWithFence(line, Indent(line), f)
  {
    BlanksFound(line, 3);
    RunFound(line[Indent(line)..], f.mark);
  }

  lemma StartIsFence(line: string, indent: nat, f: Fence)
    requires StartsWithFence(line, indent, f)
    ensures FenceOf(line) == Some(f) && Indent(line) == indent
  {
    FenceIff(line, f);
    assert line[indent] == f.mark;
    BlanksAre(line, 3, indent);
  }

  /** A line opens a block in the standard exactly when the code reads it so and it has no tab or late backtick. */
  lemma OpensIff(line: string, f: Fence)
    ensures StandardOpens(line, f) <==>
      FenceOf(line) == Some(f) && SpacesOnly(line) && (f.mark == '`' ==> NoBacktickBehind(line))
  {
    if indent: nat :| OpensAt(line, indent, f) {
      StartIsFence(line, indent, f);
    }
    if FenceOf(line) == Some(f) && SpacesOnly(line) && (f.mark == '`' ==> NoBacktickBehind(line)) {
      FenceStarts(line, f);
      assert forall k :: Indent(line) + f.length <= k < |line| ==>
        line[k] == Behind(line)[k - (Indent(line) + f.length)];
      assert OpensAt(line, Indent(line), f);
    }
  }

  lemma ClosingStarts(open: Fence, line: string, indent: nat, n: nat)
    requires ValidFence(open) && ClosesAt(open, line, indent, n)
    ensures StartsWithFence(line, indent, Fence(open.mark, n))
  {
  }

  /** A line closes a block in the standard exactly when it does in the code, without tab, with only blanks behind. */
  lemma ClosesIff(open: Fence, line: string)
    requires ValidFence(open)
    ensures StandardCloses(open, line) <==> CloseFence(open, line) && SpacesOnly(line) && BlankBehind(line)
  {
    if indent: nat, n: nat :| ClosesAt(open, line, indent, n) {
      ClosingStarts(open, line, indent, n);
      StartIsFence(line, indent, Fence(open.mark, n));
    }
    if CloseFence(open, line) && SpacesOnly(line) && BlankBehind(line) {
      var f := FenceOf(line).value;
      FenceStarts(line, f);
      assert forall k :: Indent(line) + f.length <= k < |line| ==>
        line[k] == Behind(line)[k - (Indent(line) + f.length)];
      assert ClosesAt(open, line, Indent(line), f.length);
    }
  }

  // ---------------------------------------------------------------- blocks

  lemma {:induction false} ExtentIsShorter(open: Fence, lines: seq<string>)
    requires ValidFence(open)
    ensures Extent(open, lines) <= StandardExtent(open, lines)
    ensures Extent(open, lines) == StandardExtent(open, lines) <==>
      Extent(open, lines) == |lines| || StandardCloses(open, lines[Extent(open, lines) - 1])
  {
    if lines != [] {
      ClosesIff(open, lines[0]);
      ExtentIsShorter(open, lines[1..]);
    }
  }

  /**
   * The code's block never reaches further than the standard's, and they are the same if and only
   * if nothing closes the code's before the last line, or the first line that does has no tab in
   * front of its marks and only blanks behind them.
   */
  lemma ExtentsAgreeIff(open: Fence, lines: seq<string>)
    requires ValidFence(open)
    ensures Extent(open, lines) <= StandardExtent(open, lines)
    ensures Extent(open, lines) == StandardExtent(open, lines) <==>
      || (forall k :: 0 <= k < |lines| - 1 ==> !CloseFence(open, lines[k]))
      || (var first := lines[Extent(open, lines) - 1]; SpacesOnly(first) && BlankBehind(first))
  {
    var n := Extent(open, lines);
    ExtentIsShorter(open, lines);
    if n < |lines| {
      ClosesIff(open, lines[n - 1]);
      assert CloseFence(open, lines[n - 1]);
    }
  }

  /** Text behind the marks does not keep a line from closing a block. */
  lemma TextBehindMarksCloses()
    ensures Extent(Fence('`', 3), ["``` x", "y"]) == 1 && StandardExtent(Fence('`', 3), ["``` x", "y"]) == 2
  {
    var open, lines := Fence('`', 3), ["``` x", "y"];
    StartIsFence(lines[0], 0, open);
    assert Behind(lines[0])[1] == 'x';
    ClosesIff(open, lines[0]);
    assert lines[1..] == ["y"] && lines[1..][1..] == [];
    assert StandardExtent(open, []) == 0;
  }

  /** Nor does a tab in front of the marks, or a backtick behind them, keep a line from opening one. */
  lemma TabOrBacktickOpens()
    ensures FenceOf("\t~~~") == Some(Fence('~', 3)) && !StandardOpens("\t~~~", Fence('~', 3))
    ensures FenceOf("``` `") == Some(Fence('`', 3)) && !StandardOpens("``` `", Fence('`', 3))
  {
    StartIsFence("\t~~~", 1, Fence('~', 3));
    OpensIff("\t~~~", Fence('~', 3));
    assert "\t~~~"[0] == '\t';
    StartIsFence("``` `", 0, Fence('`', 3));
    OpensIff("``` `", Fence('`', 3));
    assert Behind("``` `")[1] == '`';
  }
}
