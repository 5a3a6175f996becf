/**
 * apps/mobile/lib/mention-serialize.ts: mentions live in plain text behind an invisible
 * sentinel and become links when a comment is sent.
 */
module MentionSerialize {
  import opened Prelude
  import opened Text

  const SENTINEL: char := '\U{2063}'

  datatype MentionType = Member | Agent | Squad | All | Issue

  datatype Marker = Marker(kind: MentionType, id: string, name: string)

  function TypeName(kind: MentionType): string {
    match kind
    case Member => "member"
    case Agent => "agent"
    case Squad => "squad"
    case All => "all"
    case Issue => "issue"
  }

  // ---------------------------------------------------------------- the token at the cursor

  /** An `@` at the start of a word, with nothing but word characters up to the cursor. */
  predicate IsToken(text: string, cursor: int, start: nat) {
    && start < cursor <= |text|
    && text[start] == '@'
    && (start == 0 || IsSpace(text[start - 1]))
    && forall k :: start < k < cursor ==> text[k] != '@' && !IsSpace(text[k])
  }

  /** The start of the token and the query typed so far. */
  method TokenAtCursor(text: string, cursor: int) returns (r: Option<(nat, string)>)
    ensures r.Some? ==> IsToken(text, cursor, r.value.0) && r.value.1 == text[r.value.0 + 1..cursor]
    ensures r.None? ==> forall start: nat :: !IsToken(text, cursor, start)
  {
    if cursor < 1 || cursor > |text| {
      return None;
    }
    var i := cursor - 1;
    while i >= 0
      invariant -1 <= i < cursor
      invariant forall k :: i < k < cursor ==> text[k] != '@' && !IsSpace(text[k])
    {
      if text[i] == '@' {
        break;
      }
      if IsSpace(text[i]) {
        return None;
      }
      i := i - 1;
    }
    if i < 0 || text[i] != '@' {
      return None;
    }
    if i > 0 && text[i - 1] == SENTINEL {
      return None;
    }
    if i > 0 && !IsSpace(text[i - 1]) {
      return None;
    }
    var query := text[i + 1..cursor];
    assert forall k :: 0 <= k < |query| ==> query[k] == text[i + 1 + k];
    return Some((i, query));
  }

  // ---------------------------------------------------------------- inserting

  function Chip(name: string): string {
    [SENTINEL, '@'] + name + " "
  }

  /** The new text and cursor. */
  function InsertMention(text: string, start: nat, queryLength: nat, mention: Marker): (string, nat)
    requires start + 1 + queryLength <= |text|
  {
    (text[..start] + Chip(mention.name) + text[start + 1 + queryLength..], start + |Chip(mention.name)|)
  }

  // ---------------------------------------------------------------- serializing

  predicate SentinelFree(s: string) {
    forall k :: 0 <= k < |s| ==> s[k] != SENTINEL
  }

  predicate SpaceFree(s: string) {
    forall k :: 0 <= k < |s| ==> !IsSpace(s[k])
  }

  /** text.replace(/<sentinel>/g, "") */
  function Strip(s: string): string {
    if s == [] then [] else (if s[0] == SENTINEL then [] else [s[0]]) + Strip(s[1..])
  }

  /** text.indexOf(SENTINEL, from), or the length of the text. */
  function NextSentinel(s: string, from: nat): (i: nat)
    requires from <= |s|
    ensures from <= i <= |s|
    ensures forall k :: from <= k < i ==> s[k] != SENTINEL
    ensures i < |s| ==> s[i] == SENTINEL
    decreases |s| - from
  {
    if from == |s| || s[from] == SENTINEL then from else NextSentinel(s, from + 1)
  }

  /** The first whitespace at or after `from`, or the length of the text. */
  function WordEnd(s: string, from: nat): (e: nat)
    requires from <= |s|
    ensures from <= e <= |s|
    ensures forall k :: from <= k < e ==> !IsSpace(s[k])
    ensures e < |s| ==> IsSpace(s[e])
    decreases |s| - from
  {
    if from == |s| || IsSpace(s[from]) then from else WordEnd(s, from + 1)
  }

  /** What a composer text consists of: plain runs, and words marked as mentions. */
  datatype Segment = Run(text: string) | Mention(word: string)

  function Scan(s: string): seq<Segment>
    decreases |s|
  {
    var i := NextSentinel(s, 0);
    if i == |s| then [Run(s)]
    else if i + 1 < |s| && s[i + 1] == '@' then
      var e := WordEnd(s, i + 2);
      [Run(s[..i]), Mention(s[i + 2..e])] + Scan(s[e..])
    else [Run(s[..i])] + Scan(s[i + 1..])
  }

  function Words(segs: seq<Segment>): seq<string> {
    if segs == [] then []
    else (if segs[0].Mention? then [segs[0].word] else []) + Words(segs[1..])
  }

  function Names(markers: seq<Marker>): seq<string> {
    seq(|markers|, i requires 0 <= i < |markers| => markers[i].name)
  }

  /** The segments as text, each mention shown by `show` on the next marker. */
  function Show(show: Marker -> string, segs: seq<Segment>, markers: seq<Marker>): string {
    if segs == [] then []
    else if segs[0].Run? then segs[0].text + Show(show, segs[1..], markers)
    else if markers == [] then []
    else show(markers[0]) + Show(show, segs[1..], markers[1..])
  }

  function Label(m: Marker): string {
    if m.kind.Issue? then m.name else "@" + m.name
  }

  function Link(m: Marker): string {
    "[" + Label(m) + "](mention://" + TypeName(m.kind) + "/" + m.id + ")"
  }

  /** The link syntax erased again. */
  function Plain(m: Marker): string {
    "@" + m.name
  }

  /** The marked words of the text are the markers' names, in order. */
  predicate Matches(text: string, markers: seq<Marker>) {
    Words(Scan(text)) == Names(markers)
  }

  /** Progress of the walk: what is behind the cursor has been matched and written out. */
  ghost predicate Walked(text: string, markers: seq<Marker>, cursor: nat, n: nat, out: string)
    requires cursor <= |text| && n <= |markers|
  {
    && Words(Scan(text)) == Names(markers)[..n] + Words(Scan(text[cursor..]))
    && Show(Link, Scan(text), markers) == out + Show(Link, Scan(text[cursor..]), markers[n..])
  }

  lemma SentinelFrom(text: string, from: nat)
    requires from <= |text|
    ensures NextSentinel(text[from..], 0) == NextSentinel(text, from) - from
  {
    assert forall k :: 0 <= k < |text| - from ==> text[from..][k] == text[from + k];
    assert forall k :: from <= k < |text| ==> text[k] == text[from..][k - from];
  }

  lemma WordEndFrom(text: string, lo: nat, from: nat)
    requires lo <= from <= |text|
    ensures WordEnd(text[lo..], from - lo) == WordEnd(text, from) - lo
  {
    assert forall k :: 0 <= k < |text| - lo ==> text[lo..][k] == text[lo + k];
    assert forall k :: lo <= k < |text| ==> text[k] == text[lo..][k - lo];
  }

  /** A suffix of the text, seen from the text. */
  ghost predicate SuffixAt(text: string, cursor: nat, at: nat, s: string, i: nat) {
    && cursor <= at <= |text| && i == at - cursor
    && |s| == |text| - cursor && s[..i] == text[cursor..at] && NextSentinel(s, 0) == i
    && (i + 1 < |s| <==> at + 1 < |text|) && (i + 1 < |s| ==> s[i + 1] == text[at + 1])
  }

  lemma SuffixOfText(text: string, cursor: nat, at: nat)
    requires cursor <= |text| && at == NextSentinel(text, cursor)
    ensures SuffixAt(text, cursor, at, text[cursor..], at - cursor)
  {
    SentinelFrom(text, cursor);
    Slices(text, cursor, at, at, at);
  }

  /** The rest of the text at a stray sentinel. */
  lemma ScanStray(text: string, cursor: nat, at: nat)
    requires cursor <= at < |text| && at == NextSentinel(text, cursor) && !(at + 1 < |text| && text[at + 1] == '@')
    ensures Scan(text[cursor..]) == [Run(text[cursor..at])] + Scan(text[at + 1..])
  {
    SuffixOfText(text, cursor, at);
    Slices(text, cursor, at, at + 1, at + 1);
    StrayUnfold(text[cursor..], at - cursor, text[cursor..at], text[at + 1..]);
  }

  lemma StrayUnfold(s: string, i: nat, run: string, rest: string)
    requires i < |s| && i == NextSentinel(s, 0) && !(i + 1 < |s| && s[i + 1] == '@')
    requires run == s[..i] && rest == s[i + 1..]
    ensures Scan(s) == [Run(run)] + Scan(rest)
  {
  }

  lemma ShowRun(show: Marker -> string, run: string, rest: seq<Segment>, markers: seq<Marker>)
    ensures Words([Run(run)] + rest) == Words(rest)
    ensures Show(show, [Run(run)] + rest, markers) == run + Show(show, rest, markers)
  {
    var segs := [Run(run)] + rest;
    assert segs[1..] == rest;
  }

  lemma ShowMention(show: Marker -> string, run: string, word: string, rest: seq<Segment>, markers: seq<Marker>)
    ensures Words([Run(run), Mention(word)] + rest) == [word] + Words(rest)
    ensures Show(show, [Run(run), Mention(word)] + rest, markers) ==
      run + (if markers == [] then [] else show(markers[0]) + Show(show, rest, markers[1..]))
  {
    var segs := [Run(run), Mention(word)] + rest;
    assert segs[1..] == [Mention(word)] + rest;
    assert segs[1..][1..] == rest;
  }

  /** The rest of the text at a marked word. */
  lemma ScanMention(text: string, cursor: nat, at: nat, e: nat)
    requires cursor <= at && at + 1 < |text| && at == NextSentinel(text, cursor) && text[at + 1] == '@'
    requires e == WordEnd(text, at + 2)
    ensures Scan(text[cursor..]) == [Run(text[cursor..at]), Mention(text[at + 2..e])] + Scan(text[e..])
  {
    SuffixOfText(text, cursor, at);
    WordEndFrom(text, cursor, at + 2);
    Slices(text, cursor, at, at + 2, e);
    ScanUnfold(text[cursor..], at - cursor, e - cursor, text[cursor..at], text[at + 2..e], text[e..]);
  }

  lemma ScanUnfold(s: string, i: nat, e: nat, run: string, word: string, rest: string)
    requires i + 1 < |s| && i == NextSentinel(s, 0) && s[i + 1] == '@' && e == WordEnd(s, i + 2)
    requires run == s[..i] && word == s[i + 2..e] && rest == s[e..]
    ensures Scan(s) == [Run(run), Mention(word)] + Scan(rest)
  {
  }

  lemma Slices(text: string, lo: nat, a: nat, b: nat, c: nat)
    requires lo <= a <= b <= c <= |text|
    ensures text[lo..][..a - lo] == text[lo..a]
    ensures text[lo..][b - lo..c - lo] == text[b..c]
    ensures text[lo..][c - lo..] == text[c..]
  {
  }

  lemma WalkStray(text: string, markers: seq<Marker>, cursor: nat, n: nat, out: string, at: nat)
    requires cursor <= at < |text| && n <= |markers| && Walked(text, markers, cursor, n, out)
    requires at == NextSentinel(text, cursor) && !(at + 1 < |text| && text[at + 1] == '@')
    ensures Walked(text, markers, at + 1, n, out + text[cursor..at])
  {
    ScanStray(text, cursor, at);
    ShowRun(Link, text[cursor..at], Scan(text[at + 1..]), markers[n..]);
    Associative(out, text[cursor..at], Show(Link, Scan(text[at + 1..]), markers[n..]));
  }

  /** Both branches at a marked word: it is the next marker's name, or nothing can match. */
  lemma WalkMention(text: string, markers: seq<Marker>, cursor: nat, n: nat, out: string, at: nat, e: nat)
    requires cursor <= at && at + 1 < |text| && n <= |markers| && Walked(text, markers, cursor, n, out)
    requires at == NextSentinel(text, cursor) && text[at + 1] == '@' && e == WordEnd(text, at + 2)
    ensures n == |markers| || markers[n].name != text[at + 2..e] ==> !Matches(text, markers)
    ensures n < |markers| && markers[n].name == text[at + 2..e] ==>
      Walked(text, markers, e, n + 1, out + text[cursor..at] + Link(markers[n]))
  {
    var run, word, rest := text[cursor..at], text[at + 2..e], Scan(text[e..]);
    ScanMention(text, cursor, at, e);
    ShowMention(Link, run, word, rest, markers[n..]);
    NextWord(Words(Scan(text)), Names(markers), n, word, Words(rest));
    if n < |markers| && markers[n].name == word {
      assert markers[n..][1..] == markers[n + 1..];
      var tail := Show(Link, rest, markers[n + 1..]);
      Associative(run, Link(markers[n]), tail);
      Associative(out, run, Link(markers[n]));
      Associative(out, run + Link(markers[n]), tail);
    }
  }

  lemma NextWord(words: seq<string>, names: seq<string>, n: nat, word: string, rest: seq<string>)
    requires n <= |names| && words == names[..n] + ([word] + rest)
    ensures n == |names| || names[n] != word ==> words != names
    ensures n < |names| && names[n] == word ==> words == names[..n + 1] + rest
  {
    assert words[n] == word;
    if n < |names| && names[n] == word {
      assert names[..n + 1] == names[..n] + [word];
    }
  }

  lemma WalkTail(text: string, markers: seq<Marker>, cursor: nat, n: nat, out: string)
    requires cursor <= |text| && n <= |markers| && Walked(text, markers, cursor, n, out)
    requires NextSentinel(text, cursor) == |text|
    ensures Walked(text, markers, |text|, n, out + text[cursor..])
  {
    var run := text[cursor..];
    SentinelFrom(text, cursor);
    assert text[|text|..] == "";
    ScanNothing(markers[n..]);
    ScanPlain(run, markers[n..]);
    NothingMore(out + run);
  }

  lemma ScanPlain(run: string, markers: seq<Marker>)
    requires NextSentinel(run, 0) == |run|
    ensures Words(Scan(run)) == [] && Show(Link, Scan(run), markers) == run
  {
    var segs := Scan(run);
    assert segs == [Run(run)];
    assert segs[1..] == [];
    NothingMore(run);
  }

  lemma ScanNothing(markers: seq<Marker>)
    ensures Words(Scan("")) == [] && Show(Link, Scan(""), markers) == ""
  {
    var segs := Scan("");
    assert segs == [Run("")];
    assert segs[1..] == [];
  }

  lemma PrefixIsWhole(words: seq<string>, names: seq<string>, n: nat)
    requires n <= |names| && words == names[..n]
    ensures words == names <==> n == |names|
  {
  }

  lemma WalkDone(text: string, markers: seq<Marker>, n: nat, out: string)
    requires n <= |markers| && Walked(text, markers, |text|, n, out)
    ensures Matches(text, markers) <==> n == |markers|
    ensures n == |markers| ==> Show(Link, Scan(text), markers) == out
  {
    assert text[|text|..] == "";
    ScanNothing(markers[n..]);
    NothingMore(Names(markers)[..n]);
    NothingMore(out);
    PrefixIsWhole(Words(Scan(text)), Names(markers), n);
  }

  lemma NoSentinels(text: string, markers: seq<Marker>)
    requires NextSentinel(text, 0) == |text|
    ensures Show(Link, Scan(text), markers) == text && Strip(text) == text
  {
    StripNothing(text);
    ScanPlain(text, markers);
  }

  method SerializeMentions(text: string, markers: seq<Marker>) returns (r: string)
    ensures r == if Matches(text, markers) then Show(Link, Scan(text), markers) else Strip(text)
  {
    if NextSentinel(text, 0) == |text| {
      NoSentinels(text, markers);
      return text;
    }
    var out, markerIndex, abort := Walk(text, markers);
    if abort || markerIndex != |markers| {
      return Strip(text);
    }
    return out;
  }

  /** The loop over the text. */
  method Walk(text: string, markers: seq<Marker>) returns (out: string, markerIndex: nat, abort: bool)
    ensures abort ==> !Matches(text, markers)
    ensures !abort ==> markerIndex <= |markers| && (Matches(text, markers) <==> markerIndex == |markers|)
    ensures !abort && markerIndex == |markers| ==> Show(Link, Scan(text), markers) == out
  {
    out, markerIndex, abort := "", 0, false;
    var cursor := 0;
    WalkStart(text, markers);
    while cursor < |text|
      invariant cursor <= |text| && markerIndex <= |markers|
      invariant Walked(text, markers, cursor, markerIndex, out)
      decreases |text| - cursor
    {
      var sentinelAt := NextSentinel(text, cursor);
      if sentinelAt == |text| {
        WalkTail(text, markers, cursor, markerIndex, out);
        out := out + text[cursor..];
        cursor := |text|;
        break;
      }
      if !(sentinelAt + 1 < |text| && text[sentinelAt + 1] == '@') {
        WalkStray(text, markers, cursor, markerIndex, out, sentinelAt);
        out := out + text[cursor..sentinelAt];
        cursor := sentinelAt + 1;
        continue;
      }
      var wordEnd := ReadWord(text, sentinelAt + 2);
      var word := text[sentinelAt + 2..wordEnd];
      WalkMention(text, markers, cursor, markerIndex, out, sentinelAt, wordEnd);
      if markerIndex == |markers| || markers[markerIndex].name != word {
        abort := true;
        return;
      }
      out := out + text[cursor..sentinelAt] + Link(markers[markerIndex]);
      markerIndex := markerIndex + 1;
      cursor := wordEnd;
    }
    WalkDone(text, markers, markerIndex, out);
  }

  lemma WalkStart(text: string, markers: seq<Marker>)
    ensures Walked(text, markers, 0, 0, "")
  {
    assert text[0..] == text && markers[0..] == markers;
    NothingMore(Words(Scan(text)));
    NothingMore(Show(Link, Scan(text), markers));
  }

  method ReadWord(text: string, from: nat) returns (wordEnd: nat)
    requires from <= |text|
    ensures wordEnd == WordEnd(text, from)
  {
    wordEnd := from;
    while wordEnd < |text| && !IsSpace(text[wordEnd])
      invariant wordEnd <= |text| && WordEnd(text, wordEnd) == WordEnd(text, from)
    {
      wordEnd := wordEnd + 1;
    }
  }

  lemma {:induction false} StripNothing(s: string)
    requires SentinelFree(s)
    ensures Strip(s) == s
  {
    if s != [] {
      StripNothing(s[1..]);
    }
  }
}
