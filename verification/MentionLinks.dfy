/** When erasing the link syntax of a comment that was sent gives back the text that was written. */
module MentionLinks {
  import opened Prelude
  import opened Text
  import opened MentionSerialize
  import opened MentionSessions

  const SEPARATOR := "](mention://"

  predicate BracketFree(s: string) {
    forall k :: 0 <= k < |s| ==> s[k] != '[' && s[k] != ']'
  }

  /** Names and ids that do not break the link syntax. */
  predicate Readable(m: Marker) {
    BracketFree(m.name) && BracketFree(m.id) && forall k :: 0 <= k < |m.id| ==> m.id[k] != ')'
  }

  ghost predicate AllReadable(markers: seq<Marker>) {
    forall k :: 0 <= k < |markers| ==> Readable(markers[k])
  }

  /** The label of a mention link that `s` starts with, and the length of the link. */
  function LinkAt(s: string): (r: Option<(string, nat)>)
    ensures r.Some? ==> 1 + |r.value.0| + |SEPARATOR| < r.value.1 <= |s|
  {
    if s == [] || s[0] != '[' then None
    else match IndexOf(SEPARATOR, s, 1)
      case None => None
      case Some(j) =>
        if !BracketFree(s[1..j]) then None
        else match IndexOf(")", s, j + |SEPARATOR|)
          case None => None
          case Some(k) => Some((s[1..j], k + 1))
  }

  /** Every mention link replaced by its label. */
  function EraseLinks(s: string): string
    decreases |s|
  {
    if s == [] then []
    else match LinkAt(s)
      case Some(link) => link.0 + EraseLinks(s[link.1..])
      case None => [s[0]] + EraseLinks(s[1..])
  }

  // ---------------------------------------------------------------- one link

  predicate Lacks(s: string, c: char) {
    forall k :: 0 <= k < |s| ==> s[k] != c
  }

  lemma LacksFirst(pat: string, s: string)
    requires pat != [] && Lacks(s, pat[0])
    ensures !Contains(pat, s)
  {
    forall k: nat
      ensures !At(pat, s, k)
    {
      if At(pat, s, k) {
        AtChar(pat, s, k, 0);
      }
    }
  }

  lemma SeparatorFound(shown: string, tail: string)
    requires BracketFree(shown)
    ensures
      var s := ("[" + shown) + SEPARATOR + tail;
      IndexOf(SEPARATOR, s, 1) == Some(1 + |shown|) && s[1..1 + |shown|] == shown
  {
    var front := "[" + shown;
    var s := front + SEPARATOR + tail;
    LacksFirst(SEPARATOR, front);
    FirstAppended(SEPARATOR, front, tail);
    FirstAtIs(SEPARATOR, s, 1, |front|);
    assert s[1..|front|] == shown;
  }

  lemma FirstBehind(pat: string, front: string, before: string, rest: string, tail: string)
    requires Borderless(pat) && !Contains(pat, before) && tail == before + pat + rest
    ensures FirstAt(pat, front + tail, |front|, |front| + |before|)
  {
    FirstAppended(pat, before, rest);
    FirstInTail(pat, front, tail, |before|);
  }

  lemma EndFound(front: string, url: string, rest: string, s: string)
    requires Lacks(url, ')') && s == front + (url + ")" + rest)
    ensures IndexOf(")", s, |front|) == Some(|front| + |url|)
  {
    LacksFirst(")", url);
    FirstBehind(")", front, url, rest, url + ")" + rest);
    FirstAtIs(")", s, |front|, |front| + |url|);
  }

  /** A link: its label and where it ends. */
  lemma LinkIsRead(shown: string, url: string, rest: string)
    requires BracketFree(shown) && Lacks(url, ')')
    ensures
      LinkAt(("[" + shown) + SEPARATOR + (url + ")" + rest)) == Some((shown, 1 + |shown| + |SEPARATOR| + |url| + 1))
  {
    SeparatorFound(shown, url + ")" + rest);
    EndFound(("[" + shown) + SEPARATOR, url, rest, ("[" + shown) + SEPARATOR + (url + ")" + rest));
  }

  lemma BehindLink(front: string, url: string, rest: string, n: nat)
    requires n == |front| + |url| + 1
    ensures (front + (url + ")" + rest))[n..] == rest
  {
  }

  lemma LinkIsErased(shown: string, url: string, rest: string)
    requires BracketFree(shown) && Lacks(url, ')')
    ensures EraseLinks(("[" + shown) + SEPARATOR + (url + ")" + rest)) == shown + EraseLinks(rest)
  {
    LinkIsRead(shown, url, rest);
    BehindLink(("[" + shown) + SEPARATOR, url, rest, 1 + |shown| + |SEPARATOR| + |url| + 1);
  }

  // ---------------------------------------------------------------- text around links

  lemma SeparatorBehind(plain: string, shown: string)
    requires !Contains(SEPARATOR, plain) && BracketFree(shown)
    ensures !Contains(SEPARATOR, plain + ("[" + shown))
  {
    var s := plain + ("[" + shown);
    assert Lacks(SEPARATOR, '[') && s[|plain|] == '[';
    forall k: nat
      ensures !At(SEPARATOR, s, k)
    {
      if k + |SEPARATOR| <= |plain| {
        AtPart(SEPARATOR, s, 0, |plain|, k);
        assert s[0..|plain|] == plain;
      } else if At(SEPARATOR, s, k) {
        AtChar(SEPARATOR, s, k, if k < |plain| then |plain| - k else 0);
      }
    }
  }

  lemma LinkBehind(plain: string, shown: string, tail: string)
    ensures plain + (("[" + shown) + SEPARATOR + tail) == (plain + ("[" + shown)) + SEPARATOR + tail
  {
  }

  /** A bracket in the text in front of a link does not begin one. */
  lemma StrayBracket(plain: string, shown: string, tail: string)
    requires plain != [] && !Contains(SEPARATOR, plain) && BracketFree(shown)
    ensures LinkAt(plain + (("[" + shown) + SEPARATOR + tail)).None?
  {
    var front := plain + ("[" + shown);
    var s := front + SEPARATOR + tail;
    LinkBehind(plain, shown, tail);
    SeparatorBehind(plain, shown);
    FirstAppended(SEPARATOR, front, tail);
    FirstAtIs(SEPARATOR, s, 1, |front|);
    assert s[1..|front|][|plain| - 1] == '[';
  }

  lemma TailHasNone(plain: string)
    requires plain != [] && !Contains(SEPARATOR, plain)
    ensures !Contains(SEPARATOR, plain[1..])
  {
    assert plain[1..|plain|] == plain[1..];
    if Contains(SEPARATOR, plain[1..]) {
      ContainsPart(SEPARATOR, plain, 1, |plain|);
    }
  }

  lemma CharIsKept(plain: string, after: string)
    requires plain != [] && LinkAt(plain + after).None?
    requires EraseLinks(plain[1..] + after) == plain[1..] + EraseLinks(after)
    ensures EraseLinks(plain + after) == plain + EraseLinks(after)
  {
    FirstOff(plain, after);
    Halves(plain, 1);
    Associative([plain[0]], plain[1..], EraseLinks(after));
    assert plain[..1] == [plain[0]];
  }

  lemma {:induction false} TextIsKept(plain: string, shown: string, tail: string, after: string)
    requires !Contains(SEPARATOR, plain) && BracketFree(shown)
    requires after == ("[" + shown) + SEPARATOR + tail
    ensures EraseLinks(plain + after) == plain + EraseLinks(after)
  {
    if plain == [] {
      NothingMore(after);
      NothingMore(EraseLinks(after));
    } else {
      StrayBracket(plain, shown, tail);
      TailHasNone(plain);
      TextIsKept(plain[1..], shown, tail, after);
      CharIsKept(plain, after);
    }
  }

  lemma {:induction false} NoLinks(plain: string)
    requires !Contains(SEPARATOR, plain)
    ensures EraseLinks(plain) == plain
  {
    if plain != [] {
      TailHasNone(plain);
      NoLinks(plain[1..]);
      assert LinkAt(plain).None?;
    }
  }

  // ---------------------------------------------------------------- whole comments

  lemma LabelReadable(m: Marker)
    requires Readable(m)
    ensures BracketFree(Label(m)) && Lacks(TypeName(m.kind) + "/" + m.id, ')')
  {
  }

  lemma LinkParts(m: Marker, rest: string)
    ensures Link(m) + rest == ("[" + Label(m)) + SEPARATOR + ((TypeName(m.kind) + "/" + m.id) + ")" + rest)
  {
    var shown, t, id := Label(m), TypeName(m.kind), m.id;
    assert Link(m) == "[" + shown + "](mention://" + t + "/" + id + ")";
  }

  lemma MentionIsErased(plain: string, m: Marker, rest: string)
    requires !Contains(SEPARATOR, plain) && Readable(m)
    ensures EraseLinks(plain + (Link(m) + rest)) == plain + (Label(m) + EraseLinks(rest))
  {
    var shown, url := Label(m), TypeName(m.kind) + "/" + m.id;
    LabelReadable(m);
    LinkParts(m, rest);
    TextIsKept(plain, shown, url + ")" + rest, Link(m) + rest);
    LinkIsErased(shown, url, rest);
  }

  lemma PartHasNone(a: string, b: string, c: string)
    requires !Contains(SEPARATOR, a + (b + c))
    ensures !Contains(SEPARATOR, a) && !Contains(SEPARATOR, c)
  {
    var s := a + (b + c);
    assert s[0..|a|] == a && s[|a| + |b|..|s|] == c;
    if Contains(SEPARATOR, a) {
      ContainsPart(SEPARATOR, s, 0, |a|);
    }
    if Contains(SEPARATOR, c) {
      ContainsPart(SEPARATOR, s, |a| + |b|, |s|);
    }
  }

  lemma {:induction false} EraseShown(plain: string, segs: seq<Segment>, markers: seq<Marker>)
    requires AllReadable(markers) && Words(segs) == Names(markers)
    requires !Contains(SEPARATOR, plain + Show(Plain, segs, markers))
    ensures EraseLinks(plain + Show(Link, segs, markers)) == plain + Show(Label, segs, markers)
    decreases |segs|
  {
    if segs == [] {
      NothingMore(plain);
      NoLinks(plain);
    } else if segs[0].Run? {
      var text, rest := segs[0].text, segs[1..];
      Associative(plain, text, Show(Plain, rest, markers));
      Associative(plain, text, Show(Link, rest, markers));
      Associative(plain, text, Show(Label, rest, markers));
      EraseShown(plain + text, rest, markers);
    } else {
      var rest := segs[1..];
      FirstName(markers, segs[0].word, Words(rest));
      var m, others := markers[0], markers[1..];
      PartHasNone(plain, Plain(m), Show(Plain, rest, others));
      NothingMore(Show(Plain, rest, others));
      EraseShown("", rest, others);
      NothingMore(Show(Link, rest, others));
      NothingMore(Show(Label, rest, others));
      MentionIsErased(plain, m, Show(Link, rest, others));
    }
  }

  lemma {:induction false} LabelsArePlain(segs: seq<Segment>, markers: seq<Marker>)
    requires forall k :: 0 <= k < |markers| ==> !markers[k].kind.Issue?
    ensures Show(Label, segs, markers) == Show(Plain, segs, markers)
    decreases |segs|
  {
    if segs != [] {
      if segs[0].Run? {
        LabelsArePlain(segs[1..], markers);
      } else if markers != [] {
        LabelsArePlain(segs[1..], markers[1..]);
      }
    }
  }

  /**
   * Erasing the links of a linked comment gives the text with every mention as its label: the
   * sentinel-free text itself, but for the `@` that issue labels drop.
   */
  lemma LinkedTextReadsBack(text: string, markers: seq<Marker>)
    requires Matches(text, markers) && CleanNames(markers) && AllReadable(markers)
    requires !Contains(SEPARATOR, Strip(text))
    ensures EraseLinks(Show(Link, Scan(text), markers)) == Show(Label, Scan(text), markers)
    ensures (forall k :: 0 <= k < |markers| ==> !markers[k].kind.Issue?) ==>
      EraseLinks(Show(Link, Scan(text), markers)) == Strip(text)
  {
    SerializingLosesNothing(text, markers);
    NothingMore(Show(Plain, Scan(text), markers));
    NothingMore(Show(Link, Scan(text), markers));
    NothingMore(Show(Label, Scan(text), markers));
    EraseShown("", Scan(text), markers);
    if forall k :: 0 <= k < |markers| ==> !markers[k].kind.Issue? {
      LabelsArePlain(Scan(text), markers);
    }
  }

  /** Link syntax that the user typed is kept, and cannot be told from the links of mentions. */
  lemma TypedLinkIsErasedToo(shown: string, id: string)
    requires BracketFree(shown) && Lacks(id, ')')
    requires SentinelFree(("[" + shown) + SEPARATOR + (id + ")" + ""))
    ensures
      var text := ("[" + shown) + SEPARATOR + (id + ")" + "");
      Show(Link, Scan(text), []) == text && EraseLinks(text) == shown != text
  {
    var text := ("[" + shown) + SEPARATOR + (id + ")" + "");
    ScanPlain(text, []);
    LinkIsErased(shown, id, "");
    NothingMore(shown);
    assert |text| > |shown|;
  }

  // ---------------------------------------------------------------- what the links point to

  /** A mention as the reader of a comment finds it. */
  datatype Target = Target(kind: MentionType, id: string, shown: string)

  function KindOf(word: string): Option<MentionType> {
    if word == "member" then Some(Member)
    else if word == "agent" then Some(Agent)
    else if word == "squad" then Some(Squad)
    else if word == "all" then Some(All)
    else if word == "issue" then Some(Issue)
    else None
  }

  /** A kind, a slash and an id. */
  function TargetOf(url: string, shown: string): seq<Target> {
    match IndexOf("/", url, 0)
    case None => []
    case Some(i) => if KindOf(url[..i]).None? then [] else [Target(KindOf(url[..i]).value, url[i + 1..], shown)]
  }

  /** The target of the link at the start of `s`, which shows that text and ends there. */
  function TargetAt(s: string, shown: string, end: nat): seq<Target>
    requires 1 + |shown| + |SEPARATOR| < end <= |s|
  {
    TargetOf(s[1 + |shown| + |SEPARATOR|..end - 1], shown)
  }

  /** All mention links of a text, in order. */
  function ReadLinks(s: string): seq<Target>
    decreases |s|
  {
    if s == [] then []
    else match LinkAt(s)
      case Some(link) => TargetAt(s, link.0, link.1) + ReadLinks(s[link.1..])
      case None => ReadLinks(s[1..])
  }

  lemma UrlOfLink(front: string, url: string, rest: string)
    ensures (front + (url + ")" + rest))[|front|..|front| + |url|] == url
  {
  }

  lemma TakeLink(s: string, shown: string, end: nat)
    requires s != [] && LinkAt(s) == Some((shown, end))
    ensures ReadLinks(s) == TargetAt(s, shown, end) + ReadLinks(s[end..])
  {
  }

  lemma TargetRead(front: string, shown: string, url: string, rest: string)
    requires |front| == 1 + |shown| + |SEPARATOR|
    ensures TargetAt(front + (url + ")" + rest), shown, |front| + |url| + 1) == TargetOf(url, shown)
  {
    UrlOfLink(front, url, rest);
  }

  lemma TakeWhole(front: string, shown: string, url: string, rest: string)
    requires |front| == 1 + |shown| + |SEPARATOR|
    requires LinkAt(front + (url + ")" + rest)) == Some((shown, |front| + |url| + 1))
    ensures ReadLinks(front + (url + ")" + rest)) == TargetOf(url, shown) + ReadLinks(rest)
  {
    TakeLink(front + (url + ")" + rest), shown, |front| + |url| + 1);
    TargetRead(front, shown, url, rest);
    BehindLink(front, url, rest, |front| + |url| + 1);
  }

  lemma LinkIsTaken(shown: string, url: string, rest: string)
    requires BracketFree(shown) && Lacks(url, ')')
    ensures ReadLinks(("[" + shown) + SEPARATOR + (url + ")" + rest)) == TargetOf(url, shown) + ReadLinks(rest)
  {
    LinkIsRead(shown, url, rest);
    TakeWhole(("[" + shown) + SEPARATOR, shown, url, rest);
  }

  lemma CharIsSkipped(plain: string, after: string)
    requires plain != [] && LinkAt(plain + after).None?
    ensures ReadLinks(plain + after) == ReadLinks(plain[1..] + after)
  {
    FirstOff(plain, after);
  }

  lemma {:induction false} TextIsSkipped(plain: string, shown: string, tail: string, after: string)
    requires !Contains(SEPARATOR, plain) && BracketFree(shown)
    requires after == ("[" + shown) + SEPARATOR + tail
    ensures ReadLinks(plain + after) == ReadLinks(after)
  {
    if plain == [] {
      NothingMore(after);
    } else {
      StrayBracket(plain, shown, tail);
      TailHasNone(plain);
      CharIsSkipped(plain, after);
      TextIsSkipped(plain[1..], shown, tail, after);
    }
  }

  lemma {:induction false} NothingToRead(plain: string)
    requires !Contains(SEPARATOR, plain)
    ensures ReadLinks(plain) == []
  {
    if plain != [] {
      TailHasNone(plain);
      NothingToRead(plain[1..]);
      assert LinkAt(plain).None?;
    }
  }

  lemma KindIsRead(kind: MentionType)
    ensures KindOf(TypeName(kind)) == Some(kind) && Lacks(TypeName(kind), '/')
  {
  }

  lemma TargetIsRead(m: Marker, shown: string)
    ensures TargetOf(TypeName(m.kind) + "/" + m.id, shown) == [Target(m.kind, m.id, shown)]
  {
    var word, url := TypeName(m.kind), TypeName(m.kind) + "/" + m.id;
    KindIsRead(m.kind);
    LacksFirst("/", word);
    FirstAppended("/", word, m.id);
    FirstAtIs("/", url, 0, |word|);
    assert url[..|word|] == word && url[|word| + 1..] == m.id;
  }

  /** The label of an issue is its name alone; any other mention is shown with an `@`. */
  function TargetFor(m: Marker): Target {
    Target(m.kind, m.id, if m.kind == Issue then m.name else ['@'] + m.name)
  }

  function Targets(markers: seq<Marker>): seq<Target> {
    if markers == [] then [] else [TargetFor(markers[0])] + Targets(markers[1..])
  }

  lemma MentionIsRead(plain: string, m: Marker, rest: string)
    requires !Contains(SEPARATOR, plain) && Readable(m)
    ensures ReadLinks(plain + (Link(m) + rest)) == [TargetFor(m)] + ReadLinks(rest)
  {
    var shown, url := Label(m), TypeName(m.kind) + "/" + m.id;
    LabelReadable(m);
    LinkParts(m, rest);
    TextIsSkipped(plain, shown, url + ")" + rest, Link(m) + rest);
    LinkIsTaken(shown, url, rest);
    TargetIsRead(m, shown);
  }

  lemma {:induction false} ReadShown(plain: string, segs: seq<Segment>, markers: seq<Marker>)
    requires AllReadable(markers) && Words(segs) == Names(markers)
    requires !Contains(SEPARATOR, plain + Show(Plain, segs, markers))
    ensures ReadLinks(plain + Show(Link, segs, markers)) == Targets(markers)
    decreases |segs|
  {
    if segs == [] {
      NothingMore(plain);
      NothingToRead(plain);
      assert |Names(markers)| == |markers|;
    } else if segs[0].Run? {
      var text, rest := segs[0].text, segs[1..];
      Associative(plain, text, Show(Plain, rest, markers));
      Associative(plain, text, Show(Link, rest, markers));
      ReadShown(plain + text, rest, markers);
    } else {
      var rest := segs[1..];
      FirstName(markers, segs[0].word, Words(rest));
      var m, others := markers[0], markers[1..];
      PartHasNone(plain, Plain(m), Show(Plain, rest, others));
      NothingMore(Show(Plain, rest, others));
      ReadShown("", rest, others);
      NothingMore(Show(Link, rest, others));
      MentionIsRead(plain, m, Show(Link, rest, others));
    }
  }

  /**
   * The links of a linked comment are the markers, all of them, in order: each points to the kind
   * and id that was picked and shows its label.
   */
  lemma LinksReadBack(text: string, markers: seq<Marker>)
    requires Matches(text, markers) && CleanNames(markers) && AllReadable(markers)
    requires !Contains(SEPARATOR, Strip(text))
    ensures ReadLinks(Show(Link, Scan(text), markers)) == Targets(markers)
  {
    SerializingLosesNothing(text, markers);
    NothingMore(Show(Plain, Scan(text), markers));
    NothingMore(Show(Link, Scan(text), markers));
    ReadShown("", Scan(text), markers);
  }
}
