/** What a comment keeps of its mentions and of its text, over whole editing sessions. */
module MentionSessions {
  import opened Prelude
  import opened Text
  import opened MentionSerialize

  // ---------------------------------------------------------------- nothing is lost

  lemma {:induction false} StripConcat(a: string, b: string)
    ensures Strip(a + b) == Strip(a) + Strip(b)
  {
    if a == [] {
      assert a + b == b;
    } else {
      StripConcat(a[1..], b);
      FirstOff(a, b);
      Associative(if a[0] == SENTINEL then [] else [a[0]], Strip(a[1..]), Strip(b));
    }
  }

  lemma StripThree(a: string, b: string, c: string)
    ensures Strip(a + (b + c)) == Strip(a) + (Strip(b) + Strip(c))
  {
    StripConcat(a, b + c);
    StripConcat(b, c);
  }

  lemma StripMark(word: string)
    ensures Strip([SENTINEL, '@'] + word) == "@" + Strip(word)
    ensures Strip("@" + word) == "@" + Strip(word)
  {
    var s := [SENTINEL, '@'] + word;
    assert s[1..] == ['@'] + word;
    assert s[1..][1..] == word;
    assert ("@" + word)[1..] == word;
  }

  lemma FirstName(markers: seq<Marker>, word: string, rest: seq<string>)
    requires Names(markers) == [word] + rest
    ensures markers != [] && markers[0].name == word && Names(markers[1..]) == rest
  {
    assert |Names(markers)| == |markers|;
    assert Names(markers)[0] == word;
    assert Names(markers[1..]) == Names(markers)[1..];
  }

  /** Erasing the link syntax gives the text back, up to sentinels, whenever anything is linked. */
  lemma {:induction false} ErasingLinks(s: string, markers: seq<Marker>)
    requires Matches(s, markers)
    ensures Strip(Show(Plain, Scan(s), markers)) == Strip(s)
    decreases |s|
  {
    var i := NextSentinel(s, 0);
    if i == |s| {
      ErasePlain(s, markers);
    } else if i + 1 < |s| && s[i + 1] == '@' {
      var e := WordEnd(s, i + 2);
      var run, word, rest := s[..i], s[i + 2..e], s[e..];
      ScanUnfold(s, i, e, run, word, rest);
      ShowMention(Plain, run, word, Scan(rest), markers);
      FirstName(markers, word, Words(Scan(rest)));
      ErasingLinks(rest, markers[1..]);
      EraseMark(s, i, e, Show(Plain, Scan(rest), markers[1..]));
    } else {
      var run, rest := s[..i], s[i + 1..];
      StrayUnfold(s, i, run, rest);
      ShowRun(Plain, run, Scan(rest), markers);
      ErasingLinks(rest, markers);
      EraseStray(s, i, Show(Plain, Scan(rest), markers));
    }
  }

  lemma ErasePlain(s: string, markers: seq<Marker>)
    requires NextSentinel(s, 0) == |s|
    ensures Show(Plain, Scan(s), markers) == s
  {
    assert Scan(s) == [Run(s)] + [];
    ShowRun(Plain, s, [], markers);
    NothingMore(s);
  }

  lemma MarkedText(s: string, i: nat, e: nat)
    requires i + 2 <= e <= |s| && s[i] == SENTINEL && s[i + 1] == '@'
    ensures s == s[..i] + (([SENTINEL, '@'] + s[i + 2..e]) + s[e..])
  {
  }

  lemma EraseMark(s: string, i: nat, e: nat, shown: string)
    requires i + 2 <= e <= |s| && s[i] == SENTINEL && s[i + 1] == '@'
    requires Strip(shown) == Strip(s[e..])
    ensures Strip(s[..i] + (("@" + s[i + 2..e]) + shown)) == Strip(s)
  {
    var run, word, rest := s[..i], s[i + 2..e], s[e..];
    MarkedText(s, i, e);
    StripThree(run, [SENTINEL, '@'] + word, rest);
    StripThree(run, "@" + word, shown);
    StripMark(word);
  }

  lemma EraseStray(s: string, i: nat, shown: string)
    requires i < |s| && s[i] == SENTINEL
    requires Strip(shown) == Strip(s[i + 1..])
    ensures Strip(s[..i] + shown) == Strip(s)
  {
    var run, rest := s[..i], s[i + 1..];
    assert s == run + ([SENTINEL] + rest);
    StripThree(run, [SENTINEL], rest);
    StripConcat(run, shown);
    assert [SENTINEL][1..] == "";
  }

  lemma {:induction false} StripIsFree(s: string)
    ensures SentinelFree(Strip(s))
  {
    if s != [] {
      StripIsFree(s[1..]);
    }
  }

  /** Stripping takes out each sentinel, and nothing else. */
  lemma StripTakesSentinels(a: string, b: string)
    ensures SentinelFree(Strip(a))
    ensures Strip(a + [SENTINEL] + b) == Strip(a) + Strip(b)
    ensures SentinelFree(a) ==> Strip(a) == a
  {
    StripIsFree(a);
    StripConcat(a + [SENTINEL], b);
    StripConcat(a, [SENTINEL]);
    assert [SENTINEL][1..] == "";
    NothingMore(Strip(a));
    if SentinelFree(a) {
      StripNothing(a);
    }
  }

  ghost predicate CleanNames(markers: seq<Marker>) {
    forall k :: 0 <= k < |markers| ==> SentinelFree(markers[k].name)
  }

  lemma {:induction false} ShowSentinelFree(segs: seq<Segment>, markers: seq<Marker>)
    requires CleanNames(markers) && forall k :: 0 <= k < |segs| && segs[k].Run? ==> SentinelFree(segs[k].text)
    ensures SentinelFree(Show(Plain, segs, markers))
  {
    if segs != [] {
      if segs[0].Run? {
        ShowSentinelFree(segs[1..], markers);
        FreeConcat(segs[0].text, Show(Plain, segs[1..], markers));
      } else if markers != [] {
        ShowSentinelFree(segs[1..], markers[1..]);
        FreeConcat(Plain(markers[0]), Show(Plain, segs[1..], markers[1..]));
      }
    }
  }

  lemma {:induction false} RunsAreFree(s: string)
    ensures forall k :: 0 <= k < |Scan(s)| && Scan(s)[k].Run? ==> SentinelFree(Scan(s)[k].text)
    decreases |s|
  {
    var i := NextSentinel(s, 0);
    assert SentinelFree(s[..i]);
    if i < |s| {
      RunsAreFree(if i + 1 < |s| && s[i + 1] == '@' then s[WordEnd(s, i + 2)..] else s[i + 1..]);
    }
  }

  lemma FreeConcat(a: string, b: string)
    requires SentinelFree(a) && SentinelFree(b)
    ensures SentinelFree(a + b)
  {
  }

  /**
   * The user never loses text: with sentinel-free names the linked output, its link syntax
   * erased, is the text without sentinels; unlinked output is that text outright.
   */
  lemma SerializingLosesNothing(text: string, markers: seq<Marker>)
    requires CleanNames(markers) && Matches(text, markers)
    ensures Show(Plain, Scan(text), markers) == Strip(text)
  {
    ErasingLinks(text, markers);
    RunsAreFree(text);
    ShowSentinelFree(Scan(text), markers);
    StripNothing(Show(Plain, Scan(text), markers));
  }

  // ---------------------------------------------------------------- scanning in two halves

  lemma SentinelOfConcat(p: string, t: string)
    ensures NextSentinel(p + t, 0) == if NextSentinel(p, 0) < |p| then NextSentinel(p, 0) else |p| + NextSentinel(t, 0)
  {
    assert forall k :: 0 <= k < |p| ==> (p + t)[k] == p[k];
    assert forall k :: 0 <= k < |t| ==> (p + t)[|p| + k] == t[k];
    assert forall k :: |p| <= k < |p + t| ==> (p + t)[k] == t[k - |p|];
  }

  lemma WordInFront(p: string, t: string, from: nat)
    requires p != [] && IsSpace(p[|p| - 1]) && from < |p|
    ensures WordEnd(p + t, from) == WordEnd(p, from) < |p|
  {
    assert forall k :: 0 <= k < |p| ==> (p + t)[k] == p[k];
  }

  lemma WordInBack(p: string, t: string, from: nat)
    requires from <= |t|
    ensures WordEnd(p + t, |p| + from) == |p| + WordEnd(t, from)
  {
    assert forall k :: 0 <= k < |t| ==> (p + t)[|p| + k] == t[k];
    assert forall k :: |p| <= k < |p + t| ==> (p + t)[k] == t[k - |p|];
  }

  /** The word a sentinel at `i` marks, if it marks one. */
  function WordAt(s: string, i: nat): seq<string> {
    if i + 1 < |s| && s[i + 1] == '@' then [s[i + 2..WordEnd(s, i + 2)]] else []
  }

  /** The text behind the sentinel at `i` and its word. */
  function RestAt(s: string, i: nat): string
    requires i < |s|
  {
    if i + 1 < |s| && s[i + 1] == '@' then s[WordEnd(s, i + 2)..] else s[i + 1..]
  }

  lemma WordsUnfold(s: string)
    ensures
      var i := NextSentinel(s, 0);
      Words(Scan(s)) == if i == |s| then [] else WordAt(s, i) + Words(Scan(RestAt(s, i)))
  {
    var i := NextSentinel(s, 0);
    if i == |s| {
      ScanPlain(s, []);
    } else if i + 1 < |s| && s[i + 1] == '@' {
      var e := WordEnd(s, i + 2);
      ScanUnfold(s, i, e, s[..i], s[i + 2..e], s[e..]);
      ShowMention(Plain, s[..i], s[i + 2..e], Scan(s[e..]), []);
    } else {
      StrayUnfold(s, i, s[..i], s[i + 1..]);
      ShowRun(Plain, s[..i], Scan(s[i + 1..]), []);
    }
  }

  lemma Back(p: string, t: string, a: nat, b: nat)
    requires a <= b <= |t|
    ensures (p + t)[|p| + a..|p| + b] == t[a..b]
    ensures (p + t)[|p| + a..] == t[a..]
    ensures (p + t)[|p| + b..] == t[b..]
  {
  }

  lemma Front(p: string, t: string, a: nat, b: nat)
    requires a <= b <= |p|
    ensures (p + t)[a..b] == p[a..b]
    ensures (p + t)[a..] == p[a..] + t
    ensures (p + t)[b..] == p[b..] + t
  {
  }

  lemma SameMark(s: string, off: nat, t: string, i: nat, e: nat)
    requires |s| == off + |t| && i + 1 < |t| && t[i + 1] == '@' && s[off + i + 1] == '@'
    requires e == WordEnd(t, i + 2) && WordEnd(s, off + i + 2) == off + e
    requires s[off + i + 2..off + e] == t[i + 2..e] && s[off + e..] == t[e..]
    ensures WordAt(s, off + i) == WordAt(t, i) && RestAt(s, off + i) == RestAt(t, i)
  {
  }

  lemma BackChar(p: string, t: string, k: nat)
    requires k < |t|
    ensures (p + t)[|p| + k] == t[k]
  {
  }

  lemma MarkedBack(p: string, t: string, i: nat)
    requires i + 1 < |t| && t[i + 1] == '@'
    ensures WordAt(p + t, |p| + i) == WordAt(t, i) && RestAt(p + t, |p| + i) == RestAt(t, i)
  {
    var e := WordEnd(t, i + 2);
    BackChar(p, t, i + 1);
    WordInBack(p, t, i + 2);
    Back(p, t, i + 2, e);
    assert |p| + i + 2 == |p| + (i + 2);
    SameMark(p + t, |p|, t, i, e);
  }

  lemma StrayBack(p: string, t: string, i: nat)
    requires i < |t| && !(i + 1 < |t| && t[i + 1] == '@')
    ensures WordAt(p + t, |p| + i) == WordAt(t, i) && RestAt(p + t, |p| + i) == RestAt(t, i)
  {
    assert i + 1 < |t| ==> (p + t)[|p| + (i + 1)] == t[i + 1];
    Back(p, t, i + 1, i + 1);
  }

  lemma BackAt(p: string, t: string, i: nat)
    requires i < |t|
    ensures WordAt(p + t, |p| + i) == WordAt(t, i) && RestAt(p + t, |p| + i) == RestAt(t, i)
  {
    if i + 1 < |t| && t[i + 1] == '@' {
      MarkedBack(p, t, i);
    } else {
      StrayBack(p, t, i);
    }
  }

  lemma FrontChar(p: string, t: string, k: nat)
    requires k < |p|
    ensures (p + t)[k] == p[k]
  {
  }

  lemma MarkedFront(p: string, t: string, i: nat)
    requires i + 1 < |p| && IsSpace(p[|p| - 1]) && p[i + 1] == '@'
    ensures WordAt(p + t, i) == WordAt(p, i) && RestAt(p + t, i) == RestAt(p, i) + t
    ensures RestAt(p, i) == p[WordEnd(p, i + 2)..] && i + 2 <= WordEnd(p, i + 2) < |p|
  {
    FrontChar(p, t, i + 1);
    WordInFront(p, t, i + 2);
    Front(p, t, i + 2, WordEnd(p, i + 2));
  }

  lemma StrayFront(p: string, t: string, i: nat)
    requires i + 1 < |p| && p[i + 1] != '@'
    ensures WordAt(p + t, i) == WordAt(p, i) && RestAt(p + t, i) == RestAt(p, i) + t
    ensures RestAt(p, i) == p[i + 1..]
  {
    FrontChar(p, t, i + 1);
    Front(p, t, i + 1, i + 1);
  }

  lemma FrontAt(p: string, t: string, i: nat)
    requires i + 1 < |p| && IsSpace(p[|p| - 1])
    ensures WordAt(p + t, i) == WordAt(p, i) && RestAt(p + t, i) == RestAt(p, i) + t
    ensures 0 < |RestAt(p, i)| < |p| && RestAt(p, i)[|RestAt(p, i)| - 1] == p[|p| - 1]
  {
    if p[i + 1] == '@' {
      MarkedFront(p, t, i);
    } else {
      StrayFront(p, t, i);
    }
  }

  /** The words of a text, given what its first sentinel marks. */
  lemma WordsFrom(s: string, i: nat, word: seq<string>, rest: string)
    requires i == NextSentinel(s, 0) < |s| && word == WordAt(s, i) && rest == RestAt(s, i)
    ensures Words(Scan(s)) == word + Words(Scan(rest))
  {
    WordsUnfold(s);
  }

  lemma SameWords(s: string, i: nat, t: string, j: nat)
    requires i == NextSentinel(s, 0) < |s| && j == NextSentinel(t, 0) < |t|
    requires WordAt(s, i) == WordAt(t, j) && RestAt(s, i) == RestAt(t, j)
    ensures Words(Scan(s)) == Words(Scan(t))
  {
    WordsUnfold(s);
    WordsUnfold(t);
  }

  lemma NoWords(s: string)
    requires NextSentinel(s, 0) == |s|
    ensures Words(Scan(s)) == []
  {
    ScanPlain(s, []);
  }

  lemma WordsOfSecondHalf(p: string, t: string)
    requires SentinelFree(p)
    ensures Words(Scan(p + t)) == Words(Scan(t))
  {
    var i := NextSentinel(t, 0);
    SentinelOfConcat(p, t);
    if i < |t| {
      BackAt(p, t, i);
      SameWords(p + t, |p| + i, t, i);
    } else {
      NoWords(t);
      NoWords(p + t);
    }
  }

  /** A first half that ends in whitespace, or is empty, is scanned on its own. */
  lemma {:induction false} WordsOfConcat(p: string, t: string)
    requires p == [] || IsSpace(p[|p| - 1])
    ensures Words(Scan(p + t)) == Words(Scan(p)) + Words(Scan(t))
    decreases |p|
  {
    var i := NextSentinel(p, 0);
    WordsUnfold(p);
    if i == |p| {
      WordsOfSecondHalf(p, t);
    } else {
      SentinelOfConcat(p, t);
      FrontAt(p, t, i);
      WordsFrom(p + t, i, WordAt(p, i), RestAt(p, i) + t);
      WordsOfConcat(RestAt(p, i), t);
      Associative(WordAt(p, i), Words(Scan(RestAt(p, i))), Words(Scan(t)));
    }
  }

  /** A chip marks its name up to the first whitespace. */
  lemma WordsOfAnyChip(name: string)
    requires SentinelFree(name)
    ensures Words(Scan(Chip(name))) == [name[..WordEnd(name, 0)]]
  {
    var chip, e := Chip(name), WordEnd(name, 0);
    ChipShape(name, e);
    assert NextSentinel(chip, 0) == 0;
    assert WordAt(chip, 0) == [name[..e]] && RestAt(chip, 0) == name[e..] + " ";
    WordsFrom(chip, 0, [name[..e]], name[e..] + " ");
    NoWords(name[e..] + " ");
    NothingMore([name[..e]]);
  }

  lemma ChipShape(name: string, e: nat)
    requires SentinelFree(name) && e == WordEnd(name, 0)
    ensures WordEnd(Chip(name), 2) == 2 + e && Chip(name)[2..2 + e] == name[..e]
    ensures Chip(name)[2 + e..] == name[e..] + " "
    ensures SentinelFree(name[e..] + " ")
  {
    var chip := Chip(name);
    assert forall k :: 0 <= k < |name| ==> chip[2 + k] == name[k];
    assert forall k :: 2 <= k < |chip| - 1 ==> chip[k] == name[k - 2];
    assert chip[|chip| - 1] == ' ';
  }

  lemma FirstWordIsAll(name: string)
    ensures name[..WordEnd(name, 0)] == name <==> SpaceFree(name)
  {
    if WordEnd(name, 0) == |name| {
      Whole(name);
    }
  }

  lemma WordsOfChip(before: string, name: string)
    requires SentinelFree(before) && SentinelFree(name) && SpaceFree(name)
    ensures Words(Scan(before + Chip(name))) == [name]
  {
    WordsOfSecondHalf(before, Chip(name));
    WordsOfAnyChip(name);
    FirstWordIsAll(name);
  }

  // ---------------------------------------------------------------- sessions

  /** A composer: its text, its markers, and the cursor behind the latest mention. */
  datatype Session = Session(text: string, frontier: nat, markers: seq<Marker>)

  /** Behind the latest mention: replacing the text there, or picking a mention for a token there. */
  datatype Action = Type(tail: string) | Pick(start: nat, queryLength: nat, mention: Marker)

  predicate Enabled(s: Session, a: Action) {
    && s.frontier <= |s.text|
    && match a
       case Type(tail) => SentinelFree(tail)
       case Pick(start, queryLength, mention) =>
         && s.frontier <= start && start + 1 + queryLength <= |s.text|
         && SpaceFree(mention.name) && SentinelFree(mention.name)
  }

  function Act(s: Session, a: Action): Session
    requires Enabled(s, a)
  {
    match a
    case Type(tail) => s.(text := s.text[..s.frontier] + tail)
    case Pick(start, queryLength, mention) =>
      var (text, cursor) := InsertMention(s.text, start, queryLength, mention);
      Session(text, cursor, s.markers + [mention])
  }

  ghost predicate AllEnabled(s: Session, actions: seq<Action>)
    decreases |actions|
  {
    actions == [] || (Enabled(s, actions[0]) && AllEnabled(Act(s, actions[0]), actions[1..]))
  }

  ghost function Play(s: Session, actions: seq<Action>): Session
    requires AllEnabled(s, actions)
    decreases |actions|
  {
    if actions == [] then s else Play(Act(s, actions[0]), actions[1..])
  }

  ghost predicate InStep(s: Session) {
    && s.frontier <= |s.text|
    && (s.frontier == 0 || IsSpace(s.text[s.frontier - 1]))
    && Matches(s.text[..s.frontier], s.markers)
    && SentinelFree(s.text[s.frontier..])
    && CleanNames(s.markers)
  }

  lemma TypeKeepsStep(s: Session, tail: string)
    requires InStep(s) && SentinelFree(tail)
    ensures InStep(s.(text := s.text[..s.frontier] + tail))
  {
    SuffixOf(s.text[..s.frontier], tail);
  }

  /** A picked text is the old front, what was typed since, the chip, and what follows. */
  lemma PickedText(text: string, frontier: nat, start: nat, after: string, chip: string)
    requires frontier <= start <= |text|
    ensures text[..start] + chip + after == (text[..frontier] + (text[frontier..start] + chip)) + after
    ensures start + |chip| == |text[..frontier] + (text[frontier..start] + chip)|
  {
    assert text[..start] == text[..frontier] + text[frontier..start];
    Associative(text[..frontier], text[frontier..start], chip);
  }

  lemma NamesStep(markers: seq<Marker>, m: Marker)
    ensures Names(markers + [m]) == Names(markers) + [m.name]
  {
  }

  lemma PickedWords(front: string, middle: string, name: string)
    requires front == [] || IsSpace(front[|front| - 1])
    requires SentinelFree(middle) && SentinelFree(name) && SpaceFree(name)
    ensures Words(Scan(front + (middle + Chip(name)))) == Words(Scan(front)) + [name]
  {
    WordsOfConcat(front, middle + Chip(name));
    WordsOfChip(middle, name);
  }

  /** A step's conditions, read off its two halves. */
  lemma StepFromHalves(s: Session, front: string, back: string)
    requires s.frontier <= |s.text| && s.text[..s.frontier] == front && s.text[s.frontier..] == back
    requires front == [] || IsSpace(front[|front| - 1])
    requires Words(Scan(front)) == Names(s.markers) && SentinelFree(back) && CleanNames(s.markers)
    ensures InStep(s)
  {
    assert front != [] ==> front[|front| - 1] == s.text[s.frontier - 1];
  }

  /** The state after a pick, from its parts. */
  lemma PickedStep(front: string, middle: string, after: string, markers: seq<Marker>, mention: Marker)
    requires front == [] || IsSpace(front[|front| - 1])
    requires Matches(front, markers) && CleanNames(markers)
    requires SentinelFree(middle) && SentinelFree(after)
    requires SpaceFree(mention.name) && SentinelFree(mention.name)
    ensures
      var done := front + (middle + Chip(mention.name));
      InStep(Session(done + after, |done|, markers + [mention]))
  {
    var chip := Chip(mention.name);
    var done := front + (middle + chip);
    assert chip[|chip| - 1] == ' ';
    EndsInSpace(front, middle, chip);
    PickedWords(front, middle, mention.name);
    NamesStep(markers, mention);
    SuffixOf(done, after);
    StepFromHalves(Session(done + after, |done|, markers + [mention]), done, after);
  }

  lemma EndsInSpace(front: string, middle: string, chip: string)
    requires chip != [] && IsSpace(chip[|chip| - 1])
    ensures var s := front + (middle + chip); s != [] && IsSpace(s[|s| - 1])
  {
  }

  lemma PickKeepsStep(s: Session, start: nat, queryLength: nat, mention: Marker)
    requires InStep(s) && Enabled(s, Pick(start, queryLength, mention))
    ensures InStep(Act(s, Pick(start, queryLength, mention)))
  {
    var front, middle, after := s.text[..s.frontier], s.text[s.frontier..start], s.text[start + 1 + queryLength..];
    PartFree(s.text, s.frontier, start);
    PartFree(s.text, start + 1 + queryLength, |s.text|);
    assert s.text[start + 1 + queryLength..|s.text|] == after;
    assert front != [] ==> front[|front| - 1] == s.text[s.frontier - 1];
    PickedStep(front, middle, after, s.markers, mention);
    PickedText(s.text, s.frontier, start, after, Chip(mention.name));
  }

  lemma ActKeepsStep(s: Session, a: Action)
    requires InStep(s) && Enabled(s, a)
    ensures InStep(Act(s, a))
  {
    match a
    case Type(tail) => TypeKeepsStep(s, tail);
    case Pick(start, queryLength, mention) => PickKeepsStep(s, start, queryLength, mention);
  }

  lemma PartFree(text: string, lo: nat, hi: nat)
    requires lo <= hi <= |text|
    ensures forall from: nat :: from <= lo && SentinelFree(text[from..]) ==> SentinelFree(text[lo..hi])
  {
    forall from: nat | from <= lo && SentinelFree(text[from..])
      ensures SentinelFree(text[lo..hi])
    {
      assert forall k :: 0 <= k < hi - lo ==> text[lo..hi][k] == text[from..][lo - from + k];
    }
  }

  lemma StepMatches(s: Session)
    requires InStep(s)
    ensures Matches(s.text, s.markers)
  {
    var front, back := s.text[..s.frontier], s.text[s.frontier..];
    assert s.text == front + back;
    assert front == [] || front[|front| - 1] == s.text[s.frontier - 1];
    WordsOfConcat(front, back);
    WordsUnfold(back);
    assert Names(s.markers) + [] == Names(s.markers);
  }

  /**
   * Whatever is typed and picked behind the latest mention, the finished text links every
   * picked mention, in order, and loses nothing.
   */
  lemma {:induction false} SessionsLinkEverything(s: Session, actions: seq<Action>)
    requires InStep(s) && AllEnabled(s, actions)
    ensures InStep(Play(s, actions))
    ensures Matches(Play(s, actions).text, Play(s, actions).markers)
    ensures Show(Plain, Scan(Play(s, actions).text), Play(s, actions).markers) == Strip(Play(s, actions).text)
    decreases |actions|
  {
    if actions == [] {
      StepMatches(s);
      SerializingLosesNothing(s.text, s.markers);
    } else {
      ActKeepsStep(s, actions[0]);
      SessionsLinkEverything(Act(s, actions[0]), actions[1..]);
    }
  }

  /** Every sentinel-free text starts a session. */
  lemma FreshSession(text: string)
    requires SentinelFree(text)
    ensures InStep(Session(text, 0, []))
  {
    assert text[..0] == "" && text[0..] == text;
    WordsUnfold("");
    assert Names([]) == [];
  }

  // ---------------------------------------------------------------- typed and picked

  /** While a query is typed behind an `@`, that is the token, if the `@` stands at the start of a word. */
  lemma TypedTokenIff(before: string, query: string, after: string, start: nat)
    requires SpaceFree(query) && forall k :: 0 <= k < |query| ==> query[k] != '@'
    ensures IsToken(before + "@" + query + after, |before| + 1 + |query|, start) <==>
      start == |before| && (before == "" || IsSpace(before[|before| - 1]))
  {
    var text, cursor := before + "@" + query + after, |before| + 1 + |query|;
    assert text[|before|] == '@';
    assert forall k :: 0 <= k < |query| ==> text[|before| + 1 + k] == query[k];
    assert forall k :: |before| < k < cursor ==> text[k] == query[k - |before| - 1];
    assert forall k :: 0 <= k < |before| ==> text[k] == before[k];
  }

  /** Picking writes the mark, the name and a space over the token, and puts the cursor behind them. */
  lemma PickWrites(before: string, token: string, after: string, mention: Marker)
    requires token != ""
    ensures
      var (text, cursor) := InsertMention(before + token + after, |before|, |token| - 1, mention);
      text == before + ['\U{2063}', '@'] + mention.name + [' '] + after && text[cursor..] == after
  {
    var text := before + token + after;
    assert text[..|before|] == before && text[|before| + |token|..] == after;
    var written := before + ['\U{2063}', '@'] + mention.name + [' '];
    assert before + Chip(mention.name) == written;
    SuffixOf(written, after);
  }

  // ---------------------------------------------------------------- finished mentions ask for nothing

  /** No cursor in a marked word, or behind the whitespace that ends it, has a token. */
  lemma MarkedWordIsNoToken(text: string, p: nat, cursor: nat, token: nat)
    requires p + 1 < |text| && text[p] == SENTINEL && text[p + 1] == '@'
    requires p + 1 < cursor <= WordEnd(text, p + 2) + 1
    ensures !IsToken(text, cursor, token)
  {
    var end := WordEnd(text, p + 2);
    assert forall q :: p <= q < end ==> !IsSpace(text[q]);
    assert end < |text| ==> text[end] != '@';
  }

  /** The word that the sentinel at `p` marks. */
  function WordOf(text: string, p: nat): string
    requires p + 1 < |text|
  {
    text[p + 2..WordEnd(text, p + 2)]
  }

  function Shift(marks: seq<nat>, offset: nat): (r: seq<nat>)
    ensures |r| == |marks| && forall k :: 0 <= k < |r| ==> r[k] == offset + marks[k]
  {
    seq(|marks|, k requires 0 <= k < |marks| => offset + marks[k])
  }

  /** Where the sentinels that mark a word stand in the text. */
  function Marks(s: string): seq<nat>
    decreases |s|
  {
    var i := NextSentinel(s, 0);
    if i == |s| then []
    else (if WordAt(s, i) == [] then [] else [i]) + Shift(Marks(RestAt(s, i)), |s| - |RestAt(s, i)|)
  }

  /** Each mark is a sentinel, and the words they mark are `words`. */
  ghost predicate Fit(s: string, marks: seq<nat>, words: seq<string>) {
    && |marks| == |words|
    && forall k :: 0 <= k < |marks| ==> MarksWord(s, marks[k], words[k])
  }

  ghost predicate MarksWord(s: string, mark: nat, word: string) {
    mark < |s| && s[mark] == SENTINEL && WordAt(s, mark) == [word]
  }

  lemma MarkBehind(p: string, t: string, mark: nat, word: string)
    requires MarksWord(t, mark, word)
    ensures MarksWord(p + t, |p| + mark, word)
  {
    BackChar(p, t, mark);
    BackAt(p, t, mark);
  }

  lemma FitBehind(p: string, t: string, marks: seq<nat>, words: seq<string>)
    requires Fit(t, marks, words)
    ensures Fit(p + t, Shift(marks, |p|), words)
  {
    forall k | 0 <= k < |marks|
      ensures MarksWord(p + t, Shift(marks, |p|)[k], words[k])
    {
      MarkBehind(p, t, marks[k], words[k]);
    }
  }

  lemma FitBoth(s: string, a: seq<nat>, x: seq<string>, b: seq<nat>, y: seq<string>)
    requires Fit(s, a, x) && Fit(s, b, y)
    ensures Fit(s, a + b, x + y)
  {
  }

  lemma FirstFits(s: string, i: nat)
    requires i < |s| && s[i] == SENTINEL
    ensures Fit(s, if WordAt(s, i) == [] then [] else [i], WordAt(s, i))
  {
  }

  lemma RestIsSuffix(s: string, i: nat)
    requires i < |s|
    ensures
      var rest := RestAt(s, i);
      |rest| < |s| && |s| - |rest| > i && s == s[..|s| - |rest|] + rest
  {
  }

  lemma FitFrom(s: string, i: nat, rest: string, marks: seq<nat>, words: seq<string>)
    requires i < |s| && s[i] == SENTINEL && rest == RestAt(s, i) && Fit(rest, marks, words)
    ensures |rest| < |s|
    ensures Fit(s, (if WordAt(s, i) == [] then [] else [i]) + Shift(marks, |s| - |rest|), WordAt(s, i) + words)
  {
    RestIsSuffix(s, i);
    FitBehind(s[..|s| - |rest|], rest, marks, words);
    FirstFits(s, i);
    FitBoth(s, if WordAt(s, i) == [] then [] else [i], WordAt(s, i), Shift(marks, |s| - |rest|), words);
  }

  lemma MarksStep(s: string, i: nat, rest: string, words: seq<string>)
    requires i == NextSentinel(s, 0) < |s| && rest == RestAt(s, i) && |rest| < |s|
    requires Fit(rest, Marks(rest), words)
    ensures Fit(s, Marks(s), WordAt(s, i) + words)
  {
    FitFrom(s, i, rest, Marks(rest), words);
  }

  lemma {:induction false} MarksAreWords(s: string)
    ensures Fit(s, Marks(s), Words(Scan(s)))
    decreases |s|
  {
    var i := NextSentinel(s, 0);
    if i == |s| {
      NoWords(s);
    } else {
      var rest := RestAt(s, i);
      RestIsSuffix(s, i);
      MarksAreWords(rest);
      MarksStep(s, i, rest, Words(Scan(rest)));
      WordsFrom(s, i, WordAt(s, i), rest);
    }
  }

  /** `word` stands marked at `p`, and no cursor in it, or behind the whitespace that ends it, has a token. */
  ghost predicate Finished(text: string, p: nat, word: string) {
    && p + 1 < |text| && text[p] == SENTINEL && text[p + 1] == '@'
    && WordOf(text, p) == word
    && forall cursor: nat, token: nat :: p + 1 < cursor <= WordEnd(text, p + 2) + 1 ==> !IsToken(text, cursor, token)
  }

  ghost predicate AllFinished(text: string, marks: seq<nat>, names: seq<string>) {
    && |marks| == |names|
    && forall k :: 0 <= k < |marks| ==> Finished(text, marks[k], names[k])
  }

  lemma MarkedIsFinished(text: string, p: nat, word: string)
    requires MarksWord(text, p, word)
    ensures Finished(text, p, word)
  {
    forall cursor: nat, token: nat | p + 1 < cursor <= WordEnd(text, p + 2) + 1
      ensures !IsToken(text, cursor, token)
    {
      MarkedWordIsNoToken(text, p, cursor, token);
    }
  }

  lemma FitIsFinished(text: string, marks: seq<nat>, names: seq<string>)
    requires Fit(text, marks, names)
    ensures AllFinished(text, marks, names)
  {
    forall k | 0 <= k < |marks|
      ensures Finished(text, marks[k], names[k])
    {
      MarkedIsFinished(text, marks[k], names[k]);
    }
  }

  ghost predicate Ascending(marks: seq<nat>) {
    forall i, j :: 0 <= i < j < |marks| ==> marks[i] < marks[j]
  }

  lemma ShiftAscends(i: nat, marked: bool, marks: seq<nat>, offset: nat)
    requires Ascending(marks) && i < offset
    ensures Ascending((if marked then [i] else []) + Shift(marks, offset))
  {
  }

  lemma {:induction false} MarksAscend(s: string)
    ensures Ascending(Marks(s))
    decreases |s|
  {
    var i := NextSentinel(s, 0);
    if i < |s| {
      var rest := RestAt(s, i);
      RestIsSuffix(s, i);
      MarksAscend(rest);
      ShiftAscends(i, WordAt(s, i) != [], Marks(rest), |s| - |rest|);
    }
  }

  /**
   * However a session goes on after a mention was picked: it still stands in the text, in its
   * place among the picks, and no cursor in it or right behind it asks for a suggestion.
   */
  lemma FinishedMentionsAreNoTokens(s: Session, actions: seq<Action>)
    requires InStep(s) && AllEnabled(s, actions)
    ensures var t := Play(s, actions); AllFinished(t.text, Marks(t.text), Names(t.markers))
    ensures Ascending(Marks(Play(s, actions).text))
  {
    SessionsLinkEverything(s, actions);
    var t := Play(s, actions);
    MarksAreWords(t.text);
    MarksAscend(t.text);
    FitIsFinished(t.text, Marks(t.text), Names(t.markers));
  }

  // ---------------------------------------------------------------- inserting anywhere

  lemma {:induction false} Rotation(w: string, b: seq<string>, name: string)
    ensures [w] + b == b + [name] <==> w == name && forall j :: 0 <= j < |b| ==> b[j] == name
    decreases |b|
  {
    if b == [] {
      NothingMore([w]);
      NothingMore([name]);
      assert [w][0] == w && [name][0] == name;
    } else {
      Rotation(b[0], b[1..], name);
      Halves(b, 1);
      assert b[..1] == [b[0]];
      FirstOff([w], b);
      FirstOff(b, [name]);
      assert [w][1..] == [];
      NothingMore(b);
      assert [w] + b == b + [name] <==> w == b[0] && b == b[1..] + [name] by {
        if w == b[0] && b == b[1..] + [name] {
          assert b + [name] == [b[0]] + (b[1..] + [name]);
        }
      }
    }
  }

  lemma CancelFront(a: seq<string>, x: seq<string>, y: seq<string>)
    ensures a + x == a + y <==> x == y
  {
    SuffixOf(a, x);
    SuffixOf(a, y);
  }

  /** The marked words of a text cut at a token, and after the token is replaced by a chip. */
  lemma WordsAroundToken(front: string, token: string, after: string, name: string)
    requires front == [] || IsSpace(front[|front| - 1])
    requires SentinelFree(token) && SentinelFree(name)
    ensures Words(Scan(front + (token + after))) == Words(Scan(front)) + Words(Scan(after))
    ensures Words(Scan(front + (Chip(name) + after))) ==
      Words(Scan(front)) + ([name[..WordEnd(name, 0)]] + Words(Scan(after)))
  {
    WordsOfConcat(front, token + after);
    WordsOfSecondHalf(token, after);
    WordsOfConcat(front, Chip(name) + after);
    assert Chip(name)[|Chip(name)| - 1] == ' ';
    WordsOfConcat(Chip(name), after);
    WordsOfAnyChip(name);
  }

  lemma CutAtToken(text: string, start: nat, queryLength: nat, chip: string)
    requires start + 1 + queryLength <= |text|
    ensures text == text[..start] + (text[start..start + 1 + queryLength] + text[start + 1 + queryLength..])
    ensures text[..start] + chip + text[start + 1 + queryLength..]
         == text[..start] + (chip + text[start + 1 + queryLength..])
  {
  }

  /**
   * Picking for a token anywhere in a text whose mentions all link: everything still links if and
   * only if the new name has no whitespace and every mention behind the token has that very name.
   */
  lemma InsertionLinksIff(text: string, start: nat, queryLength: nat, mention: Marker, markers: seq<Marker>)
    requires start + 1 + queryLength <= |text| && IsToken(text, start + 1 + queryLength, start)
    requires SentinelFree(text[start..start + 1 + queryLength]) && SentinelFree(mention.name)
    requires Matches(text, markers)
    ensures
      var next, k := InsertMention(text, start, queryLength, mention).0, |Words(Scan(text[..start]))|;
      k <= |markers| &&
      (Matches(next, markers + [mention]) <==>
         SpaceFree(mention.name) && forall j :: k <= j < |markers| ==> markers[j].name == mention.name)
  {
    var a, b := WordsAroundPick(text, start, queryLength, mention);
    RotatedNames(markers, mention, a, b);
  }

  lemma WordsAroundPick(text: string, start: nat, queryLength: nat, mention: Marker)
    returns (a: seq<string>, b: seq<string>)
    requires start + 1 + queryLength <= |text| && IsToken(text, start + 1 + queryLength, start)
    requires SentinelFree(text[start..start + 1 + queryLength]) && SentinelFree(mention.name)
    ensures a == Words(Scan(text[..start])) && Words(Scan(text)) == a + b
    ensures Words(Scan(InsertMention(text, start, queryLength, mention).0)) ==
      a + ([mention.name[..WordEnd(mention.name, 0)]] + b)
  {
    var front, token, after := text[..start], text[start..start + 1 + queryLength], text[start + 1 + queryLength..];
    assert front == [] || front[|front| - 1] == text[start - 1];
    a, b := Words(Scan(front)), Words(Scan(after));
    CutAtToken(text, start, queryLength, Chip(mention.name));
    CutWords(text, InsertMention(text, start, queryLength, mention).0, front, token, after, mention.name);
  }

  lemma CutWords(text: string, next: string, front: string, token: string, after: string, name: string)
    requires text == front + (token + after) && next == front + (Chip(name) + after)
    requires front == [] || IsSpace(front[|front| - 1])
    requires SentinelFree(token) && SentinelFree(name)
    ensures Words(Scan(text)) == Words(Scan(front)) + Words(Scan(after))
    ensures Words(Scan(next)) == Words(Scan(front)) + ([name[..WordEnd(name, 0)]] + Words(Scan(after)))
  {
    WordsAroundToken(front, token, after, name);
  }

  lemma RotatedNames(markers: seq<Marker>, mention: Marker, a: seq<string>, b: seq<string>)
    requires Names(markers) == a + b
    ensures |a| <= |markers|
    ensures a + ([mention.name[..WordEnd(mention.name, 0)]] + b) == Names(markers + [mention]) <==>
      SpaceFree(mention.name) && forall j :: |a| <= j < |markers| ==> markers[j].name == mention.name
  {
    var name, word := mention.name, mention.name[..WordEnd(mention.name, 0)];
    NamesStep(markers, mention);
    Associative(a, b, [name]);
    CancelFront(a, [word] + b, b + [name]);
    Rotation(word, b, name);
    FirstWordIsAll(name);
    BehindNames(markers, a, b, name);
  }

  lemma BehindNames(markers: seq<Marker>, a: seq<string>, b: seq<string>, name: string)
    requires Names(markers) == a + b
    ensures |a| <= |markers|
    ensures (forall j :: 0 <= j < |b| ==> b[j] == name)
       <==> (forall j :: |a| <= j < |markers| ==> markers[j].name == name)
  {
    assert |markers| == |a| + |b|;
    assert forall j :: |a| <= j < |markers| ==> markers[j].name == Names(markers)[j] && Names(markers)[j] == b[j - |a|];
    assert forall j :: 0 <= j < |b| ==>
      b[j] == Names(markers)[|a| + j] && Names(markers)[|a| + j] == markers[|a| + j].name;
  }
}
