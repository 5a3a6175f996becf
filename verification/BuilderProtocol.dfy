/**
 * packages/core/agents/builder-protocol.ts: reading the <agent_draft> block out of a streamed
 * reply, and hiding it from the reader.
 */
module BuilderProtocol {
  import opened Prelude
  import opened Text

  const OPEN := "<agent_draft>"
  const CLOSE := "</agent_draft>"

  // ---------------------------------------------------------------- repairing JSON

  /** inString and escaped: `escaped` is only ever set inside a string. */
  datatype Scan = Outside | Inside | Escaped

  function Next(st: Scan, c: char): Scan {
    match st
    case Outside => if c == '"' then Inside else Outside
    case Inside => if c == '\\' then Escaped else if c == '"' then Outside else Inside
    case Escaped => Inside
  }

  function Emit(st: Scan, c: char): string {
    if st.Inside? && c == '\n' then "\\n"
    else if st.Inside? && c == '\r' then "\\r"
    else if st.Inside? && c == '\t' then "\\t"
    else [c]
  }

  /** The repair of the rest of a text, from a scanner state. */
  function Repair(st: Scan, s: string): string
    decreases |s|
  {
    if s == [] then [] else Emit(st, s[0]) + Repair(Next(st, s[0]), s[1..])
  }

  method EscapeJsonStringControlCharacters(value: string) returns (result: string)
    ensures result == Repair(Outside, value)
  {
    result := "";
    var inString, escaped := false, false;
    for i := 0 to |value|
      invariant escaped ==> inString
      invariant Repair(Outside, value) == result + Repair(State(inString, escaped), value[i..])
    {
      var c := value[i];
      RepairStep(State(inString, escaped), result, value, i);
      if !inString {
        result := result + [c];
        if c == '"' { inString := true; }
      } else if escaped {
        result := result + [c];
        escaped := false;
      } else if c == '\\' {
        result := result + [c];
        escaped := true;
      } else if c == '"' {
        result := result + [c];
        inString := false;
      } else if c == '\n' {
        result := result + "\\n";
      } else if c == '\r' {
        result := result + "\\r";
      } else if c == '\t' {
        result := result + "\\t";
      } else {
        result := result + [c];
      }
    }
    assert result + [] == result;
  }

  /** The two flags of the loop as one state. */
  function State(inString: bool, escaped: bool): Scan {
    if !inString then Outside else if escaped then Escaped else Inside
  }

  lemma RepairStep(st: Scan, result: string, value: string, i: nat)
    requires i < |value|
    ensures result + Repair(st, value[i..])
         == (result + Emit(st, value[i])) + Repair(Next(st, value[i]), value[i + 1..])
  {
    assert value[i..][0] == value[i] && value[i..][1..] == value[i + 1..];
  }

  // ---------------------------------------------------------------- reading JSON

  /** JSON text as its grammar sees it: characters outside strings, and decoded strings. */
  datatype Token = Char(c: char) | Literal(codes: seq<int>)

  datatype Mode =
    | Out
    | In(acc: seq<int>)
    | Esc(acc: seq<int>)
    | Hex(acc: seq<int>, left: nat, code: int)

  function HexDigit(c: char): Option<int> {
    if '0' <= c <= '9' then Some(c as int - '0' as int)
    else if 'a' <= c <= 'f' then Some(c as int - 'a' as int + 10)
    else if 'A' <= c <= 'F' then Some(c as int - 'A' as int + 10)
    else None
  }

  /** The two-character escapes of section 7 of RFC 8259. */
  function Unescape(c: char): Option<int> {
    match c
    case '"' => Some(0x22)
    case '\\' => Some(0x5c)
    case '/' => Some(0x2f)
    case 'b' => Some(8)
    case 'f' => Some(12)
    case 'n' => Some(10)
    case 'r' => Some(13)
    case 't' => Some(9)
    case _ => None
  }

  function Prefix(t: Token, rest: Option<seq<Token>>): Option<seq<Token>> {
    if rest.Some? then Some([t] + rest.value) else None
  }

  /**
   * Reads string literals by section 7 of RFC 8259, or fails. A lenient reader also takes
   * raw LF, CR and TAB inside a string, as themselves.
   */
  function Lex(lenient: bool, m: Mode, s: string): Option<seq<Token>>
    decreases |s|
  {
    if s == [] then (if m.Out? then Some([]) else None)
    else
      var c, rest := s[0], s[1..];
      match m
      case Out => if c == '"' then Lex(lenient, In([]), rest) else Prefix(Char(c), Lex(lenient, Out, rest))
      case In(acc) =>
        if c == '"' then Prefix(Literal(acc), Lex(lenient, Out, rest))
        else if c == '\\' then Lex(lenient, Esc(acc), rest)
        else if c < ' ' && !(lenient && c in {'\n', '\r', '\t'}) then None
        else Lex(lenient, In(acc + [c as int]), rest)
      case Esc(acc) =>
        if c == 'u' then Lex(lenient, Hex(acc, 4, 0), rest)
        else if Unescape(c).Some? then Lex(lenient, In(acc + [Unescape(c).value]), rest)
        else None
      case Hex(acc, left, code) =>
        if HexDigit(c).None? then None
        else if left <= 1 then Lex(lenient, In(acc + [16 * code + HexDigit(c).value]), rest)
        else Lex(lenient, Hex(acc, left - 1, 16 * code + HexDigit(c).value), rest)
  }

  function ScanOf(m: Mode): Scan {
    match m
    case Out => Outside
    case Esc(_) => Escaped
    case _ => Inside
  }

  /** Strictly reading the repaired text is leniently reading the original, failures included. */
  lemma {:induction false} RepairPreservesMeaning(m: Mode, s: string)
    ensures Lex(false, m, Repair(ScanOf(m), s)) == Lex(true, m, s)
    decreases |s|
  {
    if s != [] {
      var c, rest, st := s[0], s[1..], ScanOf(m);
      var tail := Repair(Next(st, c), rest);
      var r := Repair(st, s);
      assert r == Emit(st, c) + tail;
      if st.Inside? && c in {'\n', '\r', '\t'} {
        assert r[0] == '\\' && r[1..][0] == Emit(st, c)[1] && r[1..][1..] == tail;
        if m.In? {
          RepairPreservesMeaning(In(m.acc + [c as int]), rest);
        }
      } else {
        assert r[0] == c && r[1..] == tail;
        match m
        case Out => RepairPreservesMeaning(if c == '"' then In([]) else Out, rest);
        case In(acc) =>
          RepairPreservesMeaning(if c == '"' then Out else if c == '\\' then Esc(acc) else In(acc + [c as int]), rest);
        case Esc(acc) =>
          if c == 'u' {
            RepairPreservesMeaning(Hex(acc, 4, 0), rest);
          } else if Unescape(c).Some? {
            RepairPreservesMeaning(In(acc + [Unescape(c).value]), rest);
          }
        case Hex(acc, left, code) =>
          if HexDigit(c).Some? {
            var code' := 16 * code + HexDigit(c).value;
            RepairPreservesMeaning(if left <= 1 then In(acc + [code']) else Hex(acc, left - 1, code'), rest);
          }
      }
    }
  }

  /** Text whose strings are already valid is left alone, and reads alike either way. */
  lemma {:induction false} RepairKeepsValidText(m: Mode, s: string)
    requires Lex(false, m, s).Some?
    ensures Repair(ScanOf(m), s) == s
    ensures Lex(true, m, s) == Lex(false, m, s)
    decreases |s|
  {
    if s != [] {
      var c, rest := s[0], s[1..];
      assert s == [c] + rest;
      match m
      case Out => RepairKeepsValidText(if c == '"' then In([]) else Out, rest);
      case In(acc) =>
        RepairKeepsValidText(if c == '"' then Out else if c == '\\' then Esc(acc) else In(acc + [c as int]), rest);
      case Esc(acc) =>
        RepairKeepsValidText(if c == 'u' then Hex(acc, 4, 0) else In(acc + [Unescape(c).value]), rest);
      case Hex(acc, left, code) =>
        var code' := 16 * code + HexDigit(c).value;
        RepairKeepsValidText(if left <= 1 then In(acc + [code']) else Hex(acc, left - 1, code'), rest);
    }
  }

  lemma {:induction false} RepairIdempotent(st: Scan, s: string)
    ensures Repair(st, Repair(st, s)) == Repair(st, s)
    decreases |s|
  {
    if s != [] {
      var c, next := s[0], Next(st, s[0]);
      var tail := Repair(next, s[1..]);
      var r := Repair(st, s);
      RepairIdempotent(next, s[1..]);
      assert r == Emit(st, c) + tail;
      if |Emit(st, c)| == 2 {
        assert r[0] == '\\' && r[1..][0] == Emit(st, c)[1] && r[1..][1..] == tail;
      } else {
        assert r[0] == c && r[1..] == tail;
      }
    }
  }

  /** The characters outside strings, opening quotes included. */
  function OutsideOf(st: Scan, s: string): string
    decreases |s|
  {
    if s == [] then []
    else (if st.Outside? then [s[0]] else []) + OutsideOf(Next(st, s[0]), s[1..])
  }

  /** Repair only ever touches the inside of strings. */
  lemma {:induction false} RepairKeepsOutside(st: Scan, s: string)
    ensures OutsideOf(st, Repair(st, s)) == OutsideOf(st, s)
    decreases |s|
  {
    if s != [] {
      var c, next := s[0], Next(st, s[0]);
      var tail := Repair(next, s[1..]);
      var r := Repair(st, s);
      RepairKeepsOutside(next, s[1..]);
      assert r == Emit(st, c) + tail;
      if |Emit(st, c)| == 2 {
        assert r[0] == '\\' && r[1..][0] == Emit(st, c)[1] && r[1..][1..] == tail;
      } else {
        assert r[0] == c && r[1..] == tail;
      }
    }
  }

  // ---------------------------------------------------------------- parsing a draft

  /** A parsed JSON value: an object or array, or something `typeof` does not call an object. */
  datatype Json<V> = Structured(value: V) | Scalar

  /**
   * JSON.parse: whatever a grammar makes of the tokens, once every string literal is valid.
   * The grammar is a parameter; None is a syntax error.
   */
  function JsonParse<V>(grammar: seq<Token> -> Option<Json<V>>, lenient: bool, s: string): Option<Json<V>> {
    var tokens := Lex(lenient, Out, s);
    if tokens.Some? then grammar(tokens.value) else None
  }

  function AsDraft<V>(parsed: Json<V>): Option<V> {
    if parsed.Structured? then Some(parsed.value) else None
  }

  /** The first closed block's text; no block and an empty block are alike. */
  function Payload(content: string): Option<string> {
    match IndexOf(OPEN, content, 0)
    case None => None
    case Some(i) =>
      match IndexOf(CLOSE, content, i + |OPEN|)
      case None => None
      case Some(j) => if j == i + |OPEN| then None else Some(content[i + |OPEN|..j])
  }

  function ParseBuilderDraft<V>(grammar: seq<Token> -> Option<Json<V>>, content: string): Option<V> {
    match Payload(content)
    case None => None
    case Some(payload) =>
      match JsonParse(grammar, false, payload)
      case Some(parsed) => AsDraft(parsed)
      case None =>
        match JsonParse(grammar, false, Repair(Outside, payload))
        case Some(parsed) => AsDraft(parsed)
        case None => None
  }

  /**
   * The two attempts together are one JSON parser that also accepts raw LF, CR and TAB inside
   * strings, whatever the grammar: the fallback never changes a text the first attempt read.
   */
  lemma DraftIsLenientParse<V>(grammar: seq<Token> -> Option<Json<V>>, content: string)
    ensures ParseBuilderDraft(grammar, content) ==
      match Payload(content)
      case None => None
      case Some(payload) =>
        match JsonParse(grammar, true, payload)
        case Some(Structured(value)) => Some(value)
        case _ => None
  {
    if Payload(content).Some? {
      var payload := Payload(content).value;
      RepairPreservesMeaning(Out, payload);
      if Lex(false, Out, payload).Some? {
        RepairKeepsValidText(Out, payload);
      }
    }
  }

  // ---------------------------------------------------------------- hiding the block

  /** content.replace(/\s*<agent_draft>[\s\S]*?<\/agent_draft>/g, "") */
  function StripClosed(s: string): string
    decreases |s|
  {
    match IndexOf(OPEN, s, 0)
    case None => s
    case Some(i) =>
      match IndexOf(CLOSE, s, i + |OPEN|)
      case None => s
      case Some(j) => TrimEnd(s[..i]) + StripClosed(s[j + |CLOSE|..])
  }

  /** content.replace(/\s*<agent_draft>[\s\S]*$/, "") */
  function CutUnclosed(s: string): string {
    match IndexOf(OPEN, s, 0)
    case None => s
    case Some(i) => TrimEnd(s[..i])
  }

  function StripBuilderDraft(content: string): string {
    Trim(CutUnclosed(StripClosed(content)))
  }

  lemma CutHasNoTag(s: string)
    ensures !Contains(OPEN, CutUnclosed(s))
  {
    var r, cut := IndexOf(OPEN, s, 0), CutUnclosed(s);
    if r.Some? {
      TrimEndPrefix(s[..r.value]);
      assert cut == s[0..|cut|];
      forall k: nat
        ensures !At(OPEN, cut, k)
      {
        AtPart(OPEN, s, 0, |cut|, k);
      }
    }
  }

  /** The visible text never shows the tag, even where removing one block joins another's halves. */
  lemma StrippedHasNoTag(content: string)
    ensures !Contains(OPEN, StripBuilderDraft(content))
  {
    CutHasNoTag(StripClosed(content));
    if Contains(OPEN, StripBuilderDraft(content)) {
      TrimContains(OPEN, CutUnclosed(StripClosed(content)));
    }
  }

  lemma StripIsTrim(s: string)
    requires !Contains(OPEN, s)
    ensures StripBuilderDraft(s) == Trim(s)
  {
    assert IndexOf(OPEN, s, 0).None?;
  }

  lemma StripIdempotent(content: string)
    ensures StripBuilderDraft(StripBuilderDraft(content)) == StripBuilderDraft(content)
  {
    var r := StripBuilderDraft(content);
    StrippedHasNoTag(content);
    StripIsTrim(r);
    TrimAgain(CutUnclosed(StripClosed(content)));
  }

  /** The draft is what stands between the first opening tag and the first closing tag behind it. */
  lemma PayloadIsBetweenTags(prose: string, json: string, rest: string)
    requires !Contains(OPEN, prose) && !Contains(CLOSE, json)
    ensures OPEN == "<agent_draft>" && CLOSE == "</agent_draft>"
    ensures Payload(prose + OPEN + json + CLOSE + rest) == if json == "" then None else Some(json)
  {
    var s := prose + OPEN + json + CLOSE + rest;
    FirstBlock(OPEN, CLOSE, prose, json, rest);
    FirstAtIs(OPEN, s, 0, |prose|);
    FirstAtIs(CLOSE, s, |prose + OPEN|, |prose + OPEN| + |json|);
    assert s[|prose + OPEN|..|prose + OPEN| + |json|] == json;
  }

  /** Where the first block begins and ends, whatever follows it. */
  lemma FirstBlock(open: string, close: string, prose: string, json: string, rest: string)
    requires Borderless(open) && Borderless(close) && !Contains(open, prose) && !Contains(close, json)
    ensures
      var s := prose + open + json + close + rest;
      && FirstAt(open, s, 0, |prose|)
      && FirstAt(close, s, |prose + open|, |prose + open| + |json|)
  {
    var s := prose + open + json + close + rest;
    assert s == prose + open + (json + close + rest);
    assert s == (prose + open) + (json + close + rest);
    FirstAppended(open, prose, json + close + rest);
    FirstAppended(close, json, rest);
    FirstInTail(close, prose + open, json + close + rest, |json|);
  }

  /** Without both tags in this order there is no draft. */
  lemma NoBlockNoDraft(content: string)
    requires !Contains(OPEN, content) || !Contains(CLOSE, content)
    ensures Payload(content) == None
  {
  }

  /** Removing the closed blocks takes each out with the blanks in front of it, and keeps what is around. */
  lemma BlocksAreTakenOut(prose: string, json: string, rest: string)
    requires !Contains(OPEN, prose) && !Contains(CLOSE, json)
    ensures StripClosed(prose + OPEN + json + CLOSE + rest) == TrimEnd(prose) + StripClosed(rest)
    ensures StripClosed(prose) == prose
  {
    var s := prose + OPEN + json + CLOSE + rest;
    FirstBlock(OPEN, CLOSE, prose, json, rest);
    FirstAtIs(OPEN, s, 0, |prose|);
    FirstAtIs(CLOSE, s, |prose + OPEN|, |prose + OPEN| + |json|);
    assert s[..|prose|] == prose;
    assert s[|prose + OPEN| + |json| + |CLOSE|..] == rest;
    assert IndexOf(OPEN, prose, 0).None?;
  }

  /** Behind tag-free prose, an unclosed block of any content leaves the trimmed prose. */
  lemma UnclosedShowsProse(prose: string, tail: string)
    requires !Contains(OPEN, prose) && !Contains(CLOSE, tail)
    ensures StripBuilderDraft(prose + OPEN + tail) == Trim(prose)
  {
    var s := prose + OPEN + tail;
    FirstAppended(OPEN, prose, tail);
    FirstAtIs(OPEN, s, 0, |prose|);
    var i := |prose| + |OPEN|;
    assert s[i..|s|] == tail;
    forall k: nat | i <= k
      ensures !At(CLOSE, s, k)
    {
      AtPart(CLOSE, s, i, |s|, k - i);
      assert k - i <= |tail| ==> !At(CLOSE, tail, k - i);
    }
    assert s[..|prose|] == prose;
    TrimAgain(prose);
  }

  lemma CloseFollows(close: string, before: string, json: string)
    requires Borderless(close) && !Contains(close, json)
    ensures FirstAt(close, before + (json + close), |before|, |before| + |json|)
  {
    FirstAtEnd(close, json);
    FirstInTail(close, before, json + close, |json|);
  }

  lemma Regroup(a: string, b: string, c: string, d: string)
    ensures a + b + c + d == (a + b) + (c + d)
    ensures (a + b + c + d)[..|a|] == a
    ensures (a + b + c + d)[|a + b| + |c| + |d|..] == []
  {
  }

  /** Where the first block of `prose + open + json + close` begins and ends. */
  lemma BlockEnds(open: string, close: string, prose: string, json: string)
    requires Borderless(open) && Borderless(close) && !Contains(open, prose) && !Contains(close, json)
    ensures
      var s := prose + open + json + close;
      && FirstAt(open, s, 0, |prose|)
      && FirstAt(close, s, |prose + open|, |prose + open| + |json|)
  {
    Regroup(prose, open, json, close);
    FirstAppended(open, prose, json + close);
    CloseFollows(close, prose + open, json);
  }

  lemma NothingToStrip()
    ensures StripClosed("") == ""
  {
    assert IndexOf(OPEN, "", 0).None?;
  }

  /** A closed block behind tag-free prose also leaves exactly the trimmed prose. */
  lemma ClosedShowsProse(prose: string, json: string)
    requires !Contains(OPEN, prose) && !Contains(CLOSE, json)
    ensures StripBuilderDraft(prose + OPEN + json + CLOSE) == Trim(prose)
  {
    var s, trimmed := prose + OPEN + json + CLOSE, TrimEnd(prose);
    BlockEnds(OPEN, CLOSE, prose, json);
    FirstAtIs(OPEN, s, 0, |prose|);
    FirstAtIs(CLOSE, s, |prose + OPEN|, |prose + OPEN| + |json|);
    Regroup(prose, OPEN, json, CLOSE);
    NothingToStrip();
    assert StripClosed(s) == trimmed + "";
    NothingMore(trimmed);
    TrimmedHasNoTag(prose);
    TrimAgain(prose);
  }

  lemma TrimmedHasNoTag(prose: string)
    requires !Contains(OPEN, prose)
    ensures CutUnclosed(TrimEnd(prose)) == TrimEnd(prose)
  {
    TrimEndPrefix(prose);
    if Contains(OPEN, TrimEnd(prose)) {
      ContainsPart(OPEN, prose, 0, |TrimEnd(prose)|);
    }
    assert IndexOf(OPEN, TrimEnd(prose), 0).None?;
  }

  lemma PrefixHasNoTag(pat: string, front: string, n: nat)
    requires Borderless(pat) && !Contains(pat, front) && n < |front + pat|
    ensures !Contains(pat, (front + pat)[..n])
  {
    var s := front + pat;
    FirstAtEnd(pat, front);
    forall k: nat
      ensures !At(pat, s[..n], k)
    {
      AtPart(pat, s, 0, n, k);
    }
  }

  lemma PrefixOfProse(prose: string, rest: string, n: nat)
    requires n <= |prose + OPEN|
    ensures (prose + OPEN + rest)[..n] == (prose + OPEN)[..n]
    ensures n >= |prose| ==> (prose + OPEN)[..n] == prose + OPEN[..n - |prose|]
    ensures n <= |prose| ==> (prose + OPEN)[..n] == prose[..n]
  {
  }

  /** Before the opening tag is complete, what has arrived is shown as it is, trimmed. */
  lemma ProseArrives(prose: string, rest: string, n: nat)
    requires !Contains(OPEN, prose) && n < |prose + OPEN|
    ensures StripBuilderDraft((prose + OPEN + rest)[..n]) ==
      if n <= |prose| then Trim(prose[..n]) else Trim(prose + OPEN[..n - |prose|])
  {
    PrefixOfProse(prose, rest, n);
    PrefixHasNoTag(OPEN, prose, n);
    StripIsTrim((prose + OPEN)[..n]);
  }

  lemma BlockArrives(prose: string, json: string, n: nat)
    requires !Contains(OPEN, prose) && !Contains(CLOSE, json)
    requires |prose + OPEN| <= n <= |prose + OPEN + json + CLOSE|
    ensures StripBuilderDraft((prose + OPEN + json + CLOSE)[..n]) == Trim(prose)
  {
    var s := prose + OPEN + json + CLOSE;
    if n == |s| {
      assert s[..n] == s;
      ClosedShowsProse(prose, json);
    } else {
      var tail := (json + CLOSE)[..n - |prose + OPEN|];
      assert s[..n] == prose + OPEN + tail;
      PrefixHasNoTag(CLOSE, json, n - |prose + OPEN|);
      UnclosedShowsProse(prose, tail);
    }
  }

  /**
   * What the reader sees at every prefix of a streamed reply: the prose so far, then also as much
   * of the opening tag as has arrived, and from its last character on the trimmed prose again,
   * until after the closing tag.
   */
  lemma StreamingShowsProse(prose: string, json: string, n: nat)
    requires !Contains(OPEN, prose) && !Contains(CLOSE, json)
    requires n <= |prose + OPEN + json + CLOSE|
    ensures StripBuilderDraft((prose + OPEN + json + CLOSE)[..n]) ==
      if n <= |prose| then Trim(prose[..n])
      else if n < |prose + OPEN| then Trim(prose + OPEN[..n - |prose|])
      else Trim(prose)
  {
    if n < |prose + OPEN| {
      Associative(prose + OPEN, json, CLOSE);
      ProseArrives(prose, json + CLOSE, n);
    } else {
      BlockArrives(prose, json, n);
    }
  }
}
