/**
 * packages/core/attachments/image-sequence.ts, maskCode: blanks code so that what looks like an
 * image inside it is not counted, without moving anything else.
 */
module CodeMask {
  import opened Prelude

  /** A fence: its character and its length. */
  datatype Fence = Fence(mark: char, length: nat)

  /** Replaces inline code on one line: any map that keeps the length and adds no newline. */
  type InlineMask = string -> string

  ghost predicate KeepsShape(mask: InlineMask) {
    forall line :: NewlineFree(line) ==> |mask(line)| == |line| && NewlineFree(mask(line))
  }

  ghost predicate NewlineFree(s: string) {
    forall k :: 0 <= k < |s| ==> s[k] != '\n'
  }

  // ---------------------------------------------------------------- lines

  /** content.split("\n") */
  function Split(s: string): (lines: seq<string>)
    ensures lines != []
  {
    if s == [] then [[]]
    else
      var rest := Split(s[1..]);
      if s[0] == '\n' then [[]] + rest else [[s[0]] + rest[0]] + rest[1..]
  }

  /** lines.join("\n") */
  function Join(lines: seq<string>): string {
    if lines == [] then []
    else if |lines| == 1 then lines[0]
    else lines[0] + ['\n'] + Join(lines[1..])
  }

  lemma {:induction false} SplitJoins(s: string)
    ensures Join(Split(s)) == s
    ensures forall k :: 0 <= k < |Split(s)| ==> NewlineFree(Split(s)[k])
  {
    if s != [] {
      SplitJoins(s[1..]);
      var rest, lines := Split(s[1..]), Split(s);
      assert s == [s[0]] + s[1..];
      if s[0] == '\n' {
        assert lines[1..] == rest;
      } else if |rest| > 1 {
        assert lines[1..] == rest[1..];
      }
    }
  }

  ghost predicate SameShape(a: seq<string>, b: seq<string>) {
    && |a| == |b|
    && forall k :: 0 <= k < |a| ==> |a[k]| == |b[k]| && NewlineFree(a[k]) && NewlineFree(b[k])
  }

  lemma {:induction false} JoinShape(a: seq<string>, b: seq<string>)
    requires SameShape(a, b)
    ensures |Join(a)| == |Join(b)|
    ensures forall i :: 0 <= i < |Join(a)| ==> (Join(a)[i] == '\n' <==> Join(b)[i] == '\n')
  {
    if |a| > 1 {
      JoinShape(a[1..], b[1..]);
      LineThenRest(a[0], Join(a[1..]), b[0], Join(b[1..]));
    }
  }

  lemma LineThenRest(x: string, xs: string, y: string, ys: string)
    requires |x| == |y| && NewlineFree(x) && NewlineFree(y)
    requires |xs| == |ys| && forall i :: 0 <= i < |xs| ==> (xs[i] == '\n' <==> ys[i] == '\n')
    ensures |x + ['\n'] + xs| == |y + ['\n'] + ys|
    ensures forall i :: 0 <= i < |x + ['\n'] + xs| ==> ((x + ['\n'] + xs)[i] == '\n' <==> (y + ['\n'] + ys)[i] == '\n')
  {
  }

  // ---------------------------------------------------------------- fences

  function LeadingBlanks(line: string, limit: nat): (n: nat)
    ensures n <= |line| && n <= limit
  {
    if limit == 0 || line == [] || line[0] !in {' ', '\t'} then 0 else 1 + LeadingBlanks(line[1..], limit - 1)
  }

  function RunLength(line: string, mark: char): (n: nat)
    ensures n <= |line|
  {
    if line == [] || line[0] != mark then 0 else 1 + RunLength(line[1..], mark)
  }

  /** /^[ \t]{0,3}(`{3,}|~{3,})/ */
  function FenceOf(line: string): Option<Fence> {
    var rest := line[LeadingBlanks(line, 3)..];
    if RunLength(rest, '`') >= 3 then Some(Fence('`', RunLength(rest, '`')))
    else if RunLength(rest, '~') >= 3 then Some(Fence('~', RunLength(rest, '~')))
    else None
  }

  /** A later fence line that ends the block, whatever follows the marks on it. */
  predicate CloseFence(open: Fence, line: string) {
    var f := FenceOf(line);
    f.Some? && f.value.mark == open.mark && f.value.length >= open.length
  }

  function BlankOut(line: string): (r: string)
    ensures |r| == |line| && forall k :: 0 <= k < |r| ==> r[k] == (if line[k] == '\n' then '\n' else ' ')
  {
    seq(|line|, k requires 0 <= k < |line| => if line[k] == '\n' then '\n' else ' ')
  }

  /** Up to three blanks, then a maximal run of at least three backticks or tildes. */
  ghost predicate StartsWithFence(line: string, blanks: nat, f: Fence) {
    && blanks <= 3 && f.length >= 3 && f.mark in {'`', '~'} && blanks + f.length <= |line|
    && (forall k :: 0 <= k < blanks ==> line[k] in {' ', '\t'})
    && (forall k :: blanks <= k < blanks + f.length ==> line[k] == f.mark)
    && (blanks + f.length < |line| ==> line[blanks + f.length] != f.mark)
  }

  lemma {:induction false} BlanksAre(line: string, limit: nat, blanks: nat)
    requires blanks <= limit && blanks < |line| && line[blanks] !in {' ', '\t'}
    requires forall k :: 0 <= k < blanks ==> line[k] in {' ', '\t'}
    ensures LeadingBlanks(line, limit) == blanks
  {
    if blanks > 0 {
      BlanksAre(line[1..], limit - 1, blanks - 1);
    }
  }

  lemma {:induction false} RunIs(line: string, mark: char, n: nat)
    requires n <= |line| && (n < |line| ==> line[n] != mark)
    requires forall k :: 0 <= k < n ==> line[k] == mark
    ensures RunLength(line, mark) == n
  {
    if n > 0 {
      RunIs(line[1..], mark, n - 1);
    }
  }

  lemma {:induction false} BlanksFound(line: string, limit: nat)
    ensures forall k :: 0 <= k < LeadingBlanks(line, limit) ==> line[k] in {' ', '\t'}
  {
    if limit > 0 && line != [] && line[0] in {' ', '\t'} {
      BlanksFound(line[1..], limit - 1);
    }
  }

  lemma {:induction false} RunFound(line: string, mark: char)
    ensures forall k :: 0 <= k < RunLength(line, mark) ==> line[k] == mark
    ensures RunLength(line, mark) < |line| ==> line[RunLength(line, mark)] != mark
  {
    if line != [] && line[0] == mark {
      RunFound(line[1..], mark);
    }
  }

  /** A line is read as a fence exactly when it starts with one, of that character and length. */
  lemma FenceIff(line: string, f: Fence)
    ensures FenceOf(line) == Some(f) <==> exists blanks: nat :: StartsWithFence(line, blanks, f)
  {
    if blanks: nat :| StartsWithFence(line, blanks, f) {
      assert line[blanks] == f.mark;
      BlanksAre(line, 3, blanks);
      RunIs(line[blanks..], f.mark, f.length);
    }
    if FenceOf(line) == Some(f) {
      var blanks := LeadingBlanks(line, 3);
      BlanksFound(line, 3);
      RunFound(line[blanks..], f.mark);
      assert StartsWithFence(line, blanks, f);
    }
  }

  // ---------------------------------------------------------------- blocks, as the reader sees them

  /** How many lines a block opened before `lines` covers: through its first closing line, or all. */
  function Extent(open: Fence, lines: seq<string>): (n: nat)
    ensures n <= |lines|
    ensures forall k :: 0 <= k < n - 1 ==> !CloseFence(open, lines[k])
    ensures n > 0 && n < |lines| ==> CloseFence(open, lines[n - 1])
    ensures n == 0 ==> lines == []
  {
    if lines == [] then 0
    else if CloseFence(open, lines[0]) then 1
    else 1 + Extent(open, lines[1..])
  }

  function Blanked(lines: seq<string>): (r: seq<string>)
    ensures |r| == |lines| && forall k :: 0 <= k < |r| ==> r[k] == BlankOut(lines[k])
  {
    seq(|lines|, k requires 0 <= k < |lines| => BlankOut(lines[k]))
  }

  /** A fence blanks its line and the block behind it; any other line only has its inline code masked. */
  function Masked(mask: InlineMask, lines: seq<string>): seq<string>
    decreases |lines|, 0
  {
    if lines == [] then []
    else match FenceOf(lines[0])
      case None => [mask(lines[0])] + Masked(mask, lines[1..])
      case Some(open) => [BlankOut(lines[0])] + MaskedInside(mask, open, lines[1..])
  }

  /** Inside a block: blank through its extent, then go on outside. */
  function MaskedInside(mask: InlineMask, open: Fence, lines: seq<string>): seq<string>
    decreases |lines|, 1
  {
    Blanked(lines[..Extent(open, lines)]) + Masked(mask, lines[Extent(open, lines)..])
  }

  lemma BlankedCons(lines: seq<string>, m: nat)
    requires m < |lines|
    ensures Blanked(lines[..1 + m]) == [BlankOut(lines[0])] + Blanked(lines[1..][..m])
    ensures lines[1 + m..] == lines[1..][m..]
  {
  }

  lemma NoLines<T>(lines: seq<T>)
    ensures lines[..0] == [] && lines[0..] == lines && [] + lines == lines && lines + [] == lines
  {
  }

  lemma InsideStep(mask: InlineMask, open: Fence, lines: seq<string>)
    requires lines != []
    ensures MaskedInside(mask, open, lines) == [BlankOut(lines[0])] +
      (if CloseFence(open, lines[0]) then Masked(mask, lines[1..]) else MaskedInside(mask, open, lines[1..]))
  {
    var m, line, rest := Extent(open, lines) - 1, BlankOut(lines[0]), lines[1..];
    BlankedCons(lines, m);
    Associative([line], Blanked(rest[..m]), Masked(mask, rest[m..]));
    NoLines(rest);
    NoLines([line]);
  }

  // ---------------------------------------------------------------- the code

  /** What the loop still owes, in its current state. */
  function Owed(mask: InlineMask, fence: Option<Fence>, lines: seq<string>): seq<string> {
    if fence.Some? then MaskedInside(mask, fence.value, lines) else Masked(mask, lines)
  }

  /** One iteration: the line it writes and the fence it leaves. */
  lemma OwedStep(mask: InlineMask, fence: Option<Fence>, lines: seq<string>)
    requires lines != []
    ensures
      var line, found := lines[0], FenceOf(lines[0]);
      Owed(mask, fence, lines) ==
        if fence.Some? then
          [BlankOut(line)] + Owed(mask, if CloseFence(fence.value, line) then None else fence, lines[1..])
        else if found.Some? then [BlankOut(line)] + Owed(mask, found, lines[1..])
        else [mask(line)] + Owed(mask, None, lines[1..])
  {
    if fence.Some? {
      InsideStep(mask, fence.value, lines);
    }
  }

  lemma Regroup(r: seq<string>, line: string, rest: seq<string>)
    ensures r + ([line] + rest) == (r + [line]) + rest
  {
  }

  /** The loop rewrites each line under a `fence` variable. */
  method MaskLines(mask: InlineMask, lines: seq<string>) returns (r: seq<string>)
    ensures r == Masked(mask, lines)
  {
    r := [];
    var fence: Option<Fence> := None;
    assert lines[0..] == lines;
    for i := 0 to |lines|
      invariant r + Owed(mask, fence, lines[i..]) == Masked(mask, lines)
    {
      var line := lines[i];
      var fenceMatch := FenceOf(line);
      OwedStep(mask, fence, lines[i..]);
      assert lines[i..][0] == line && lines[i..][1..] == lines[i + 1..];
      if fence.Some? {
        var closes := fenceMatch.Some? && fenceMatch.value.mark == fence.value.mark
                   && fenceMatch.value.length >= fence.value.length;
        Regroup(r, BlankOut(line), Owed(mask, if closes then None else fence, lines[i + 1..]));
        r := r + [BlankOut(line)];
        if closes {
          fence := None;
        }
      } else if fenceMatch.Some? {
        Regroup(r, BlankOut(line), Owed(mask, fenceMatch, lines[i + 1..]));
        fence := fenceMatch;
        r := r + [BlankOut(line)];
      } else {
        Regroup(r, mask(line), Owed(mask, None, lines[i + 1..]));
        r := r + [mask(line)];
      }
    }
    assert lines[|lines|..] == [];
    LoopEnd(mask, fence);
    assert r + [] == r;
  }

  lemma LoopEnd(mask: InlineMask, fence: Option<Fence>)
    ensures Owed(mask, fence, []) == []
  {
  }

  method MaskCode(mask: InlineMask, content: string) returns (r: string)
    ensures r == Join(Masked(mask, Split(content)))
  {
    var lines := MaskLines(mask, Split(content));
    return Join(lines);
  }

  // ---------------------------------------------------------------- nothing moves

  lemma {:induction false} MaskedShape(mask: InlineMask, lines: seq<string>)
    requires KeepsShape(mask) && forall k :: 0 <= k < |lines| ==> NewlineFree(lines[k])
    ensures SameShape(Masked(mask, lines), lines)
    decreases |lines|, 0
  {
    if lines != [] {
      var line, rest := lines[0], lines[1..];
      assert lines == [line] + rest;
      if FenceOf(line).None? {
        MaskedShape(mask, rest);
        ShapeConcat([mask(line)], [line], Masked(mask, rest), rest);
      } else {
        var open := FenceOf(line).value;
        InsideShape(mask, open, rest);
        ShapeConcat([BlankOut(line)], [line], MaskedInside(mask, open, rest), rest);
      }
    }
  }

  lemma {:induction false} InsideShape(mask: InlineMask, open: Fence, lines: seq<string>)
    requires KeepsShape(mask) && forall k :: 0 <= k < |lines| ==> NewlineFree(lines[k])
    ensures SameShape(MaskedInside(mask, open, lines), lines)
    decreases |lines|, 1
  {
    var n := Extent(open, lines);
    var block, rest := lines[..n], lines[n..];
    Halves(lines, n);
    MaskedShape(mask, rest);
    BlankedShape(block);
    ShapeConcat(Blanked(block), block, Masked(mask, rest), rest);
  }

  lemma BlankedShape(lines: seq<string>)
    requires forall k :: 0 <= k < |lines| ==> NewlineFree(lines[k])
    ensures SameShape(Blanked(lines), lines)
  {
  }

  lemma ShapeConcat(a: seq<string>, b: seq<string>, c: seq<string>, d: seq<string>)
    requires SameShape(a, b) && SameShape(c, d)
    ensures SameShape(a + c, b + d)
  {
  }

  /** Masking keeps the length of the content and every newline where it was, and adds none. */
  lemma MaskingMovesNothing(mask: InlineMask, content: string)
    requires KeepsShape(mask)
    ensures
      var r := Join(Masked(mask, Split(content)));
      && |r| == |content|
      && forall i :: 0 <= i < |content| ==> (r[i] == '\n' <==> content[i] == '\n')
  {
    SplitJoins(content);
    MaskedShape(mask, Split(content));
    JoinShape(Masked(mask, Split(content)), Split(content));
  }
}
