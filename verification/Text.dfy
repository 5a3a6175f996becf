/** The string operations the text protocols use. */
module Text {
  import opened Prelude

  /** The class `\s`, which is also what String.prototype.trim removes. */
  predicate IsSpace(c: char) {
    || '\U{9}' <= c <= '\U{d}'
    || c in {' ', '\U{a0}', '\U{1680}', '\U{2028}', '\U{2029}', '\U{202f}', '\U{205f}', '\U{3000}', '\U{feff}'}
    || '\U{2000}' <= c <= '\U{200a}'
  }

  function TrimEnd(s: string): string {
    if s != [] && IsSpace(s[|s| - 1]) then TrimEnd(s[..|s| - 1]) else s
  }

  function TrimStart(s: string): string {
    if s != [] && IsSpace(s[0]) then TrimStart(s[1..]) else s
  }

  function Trim(s: string): string {
    TrimStart(TrimEnd(s))
  }

  predicate At(pat: string, s: string, i: nat) {
    i + |pat| <= |s| && s[i..i + |pat|] == pat
  }

  predicate Contains(pat: string, s: string) {
    exists i: nat :: i <= |s| && At(pat, s, i)
  }

  /** indexOf: the first occurrence at or after `from`. */
  function IndexOf(pat: string, s: string, from: nat): (r: Option<nat>)
    requires from <= |s|
    ensures r.Some? ==>
      from <= r.value && At(pat, s, r.value) && forall k: nat :: from <= k < r.value ==> !At(pat, s, k)
    ensures r.None? ==> forall k: nat :: from <= k ==> !At(pat, s, k)
    decreases |s| - from
  {
    if At(pat, s, from) then Some(from)
    else if from == |s| then None
    else IndexOf(pat, s, from + 1)
  }

  // ---------------------------------------------------------------- trimming

  lemma {:induction false} TrimEndPrefix(s: string)
    ensures |TrimEnd(s)| <= |s| && TrimEnd(s) == s[..|TrimEnd(s)|]
    ensures TrimEnd(s) == [] || !IsSpace(TrimEnd(s)[|TrimEnd(s)| - 1])
    ensures forall k :: |TrimEnd(s)| <= k < |s| ==> IsSpace(s[k])
  {
    if s != [] && IsSpace(s[|s| - 1]) {
      TrimEndPrefix(s[..|s| - 1]);
    }
  }

  lemma {:induction false} TrimStartSuffix(s: string)
    ensures |TrimStart(s)| <= |s| && TrimStart(s) == s[|s| - |TrimStart(s)|..]
    ensures TrimStart(s) == [] || !IsSpace(TrimStart(s)[0])
    ensures forall k :: 0 <= k < |s| - |TrimStart(s)| ==> IsSpace(s[k])
  {
    if s != [] && IsSpace(s[0]) {
      TrimStartSuffix(s[1..]);
    }
  }

  /** What trimming leaves out is whitespace at the two ends, and all of it. */
  lemma TrimIs(s: string) returns (lo: nat, hi: nat)
    ensures lo <= hi <= |s| && Trim(s) == s[lo..hi]
    ensures forall k :: 0 <= k < lo || hi <= k < |s| ==> IsSpace(s[k])
    ensures lo < hi ==> !IsSpace(s[lo]) && !IsSpace(s[hi - 1])
  {
    var e := TrimEnd(s);
    TrimEndPrefix(s);
    TrimStartSuffix(e);
    hi := |e|;
    lo := hi - |Trim(s)|;
    if lo < hi {
      assert Trim(s)[|Trim(s)| - 1] == e[hi - 1];
    }
  }

  /** Trimming twice is trimming once, whichever end was trimmed first. */
  lemma TrimAgain(s: string)
    ensures Trim(Trim(s)) == Trim(s)
    ensures Trim(TrimEnd(s)) == Trim(s)
  {
    var e := TrimEnd(s);
    TrimEndPrefix(s);
    TrimStartSuffix(e);
    var t := TrimStart(e);
    if t != [] {
      assert t[|t| - 1] == e[|e| - 1];
    }
  }

  /** Occurrences in a part of a text are occurrences in the text. */
  lemma AtPart(pat: string, s: string, lo: nat, hi: nat, i: nat)
    requires lo <= hi <= |s|
    ensures At(pat, s[lo..hi], i) <==> i + |pat| <= hi - lo && At(pat, s, lo + i)
  {
    if i + |pat| <= hi - lo {
      var part, whole := s[lo..hi][i..i + |pat|], s[lo + i..lo + i + |pat|];
      assert forall k :: 0 <= k < |pat| ==> part[k] == s[lo..hi][i + k] == s[lo + i + k] == whole[k];
      assert part == whole;
    }
  }

  lemma AtChar(pat: string, s: string, i: nat, k: nat)
    requires At(pat, s, i) && k < |pat|
    ensures s[i + k] == pat[k]
  {
    assert s[i..i + |pat|][k] == s[i + k];
  }

  lemma ContainsPart(pat: string, s: string, lo: nat, hi: nat)
    requires lo <= hi <= |s| && Contains(pat, s[lo..hi])
    ensures Contains(pat, s)
  {
    var i: nat :| i <= hi - lo && At(pat, s[lo..hi], i);
    AtPart(pat, s, lo, hi, i);
  }

  lemma TrimContains(pat: string, s: string)
    requires Contains(pat, Trim(s))
    ensures Contains(pat, s)
  {
    TrimEndPrefix(s);
    TrimStartSuffix(TrimEnd(s));
    var e := |TrimEnd(s)|;
    assert Trim(s) == s[e - |Trim(s)|..e];
    ContainsPart(pat, s, e - |Trim(s)|, e);
  }

  /** `pat` cannot overlap itself: its first character occurs nowhere else in it. */
  predicate Borderless(pat: string) {
    pat != [] && forall k :: 0 < k < |pat| ==> pat[k] != pat[0]
  }

  /** `r` is the first occurrence of `pat` at or after `from`. */
  ghost predicate FirstAt(pat: string, s: string, from: nat, r: nat) {
    from <= r && At(pat, s, r) && forall k: nat :: from <= k < r ==> !At(pat, s, k)
  }

  lemma FirstAtIs(pat: string, s: string, from: nat, r: nat)
    requires from <= |s| && FirstAt(pat, s, from, r)
    ensures IndexOf(pat, s, from) == Some(r)
  {
  }

  /** Where `pat` was appended to text free of it, its first occurrence is the appended one. */
  lemma FirstAppended(pat: string, front: string, back: string)
    requires Borderless(pat) && !Contains(pat, front)
    ensures FirstAt(pat, front + pat + back, 0, |front|)
  {
    var s := front + pat + back;
    assert At(pat, s, |front|);
    forall k: nat | k < |front|
      ensures !At(pat, s, k)
    {
      if k + |pat| <= |front| {
        AtPart(pat, s, 0, |front|, k);
        assert s[0..|front|] == front;
      } else {
        assert s[|front|] == pat[0] != pat[|front| - k];
        assert k + |pat| <= |s| ==> s[k..k + |pat|][|front| - k] == s[|front|];
      }
    }
  }

  /** The same at the very end of a text. */
  lemma FirstAtEnd(pat: string, front: string)
    requires Borderless(pat) && !Contains(pat, front)
    ensures FirstAt(pat, front + pat, 0, |front|)
  {
    FirstAppended(pat, front, "");
    NothingMore(front + pat);
  }

  lemma AtTail(pat: string, before: string, tail: string, k: nat)
    ensures At(pat, before + tail, |before| + k) <==> At(pat, tail, k)
  {
    if k + |pat| <= |tail| {
      var s := before + tail;
      assert s[|before| + k..|before| + k + |pat|] == tail[k..k + |pat|];
    }
  }

  /** Searching from the seam is searching the second part. */
  lemma FirstInTail(pat: string, before: string, tail: string, r: nat)
    requires FirstAt(pat, tail, 0, r)
    ensures FirstAt(pat, before + tail, |before|, |before| + r)
  {
    AtTail(pat, before, tail, r);
    forall k: nat | |before| <= k < |before| + r
      ensures !At(pat, before + tail, k)
    {
      AtTail(pat, before, tail, k - |before|);
    }
  }
}
