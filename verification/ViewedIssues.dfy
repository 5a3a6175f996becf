/** apps/mobile/data/viewed-issues-store.ts: the issues opened most recently, per workspace. */
module ViewedIssues {
  import opened Prelude

  const CAPACITY := 10

  function Without(s: seq<string>, id: string): seq<string> {
    if s == [] then [] else (if s[0] == id then [] else [s[0]]) + Without(s[1..], id)
  }

  function Take(s: seq<string>, n: nat): seq<string> {
    if |s| <= n then s else s[..n]
  }

  function ListOf(byWorkspace: map<string, seq<string>>, ws: string): seq<string> {
    if ws in byWorkspace then byWorkspace[ws] else []
  }

  function Pushed(prev: seq<string>, id: string): seq<string> {
    Take([id] + Without(prev, id), CAPACITY)
  }

  datatype Event = View(id: string) | Gone(id: string)

  /** What an event does to the list of its workspace. */
  function ListStep(list: seq<string>, e: Event): seq<string> {
    match e
    case View(id) => Pushed(list, id)
    case Gone(id) => Without(list, id)
  }

  /** What it does to the store: a removal creates no list. */
  function StoreStep(byWorkspace: map<string, seq<string>>, ws: string, e: Event): map<string, seq<string>> {
    if e.Gone? && ws !in byWorkspace then byWorkspace
    else byWorkspace[ws := ListStep(ListOf(byWorkspace, ws), e)]
  }

  class ViewedIssuesStore {
    var byWorkspace: map<string, seq<string>>

    method Push(ws: string, id: string)
      modifies this
      ensures byWorkspace == StoreStep(old(byWorkspace), ws, View(id))
    {
      var prev := if ws in byWorkspace then byWorkspace[ws] else [];
      var next := Take([id] + Without(prev, id), CAPACITY);
      byWorkspace := byWorkspace[ws := next];
    }

    method Remove(ws: string, id: string)
      modifies this
      ensures byWorkspace == StoreStep(old(byWorkspace), ws, Gone(id))
    {
      if ws !in byWorkspace {
        return;
      }
      byWorkspace := byWorkspace[ws := Without(byWorkspace[ws], id)];
    }
  }

  // ---------------------------------------------------------------- many workspaces

  function StoreRun(events: seq<(string, Event)>): map<string, seq<string>> {
    if events == [] then map[]
    else
      var (ws, e) := events[|events| - 1];
      StoreStep(StoreRun(events[..|events| - 1]), ws, e)
  }

  /** The events of one workspace. */
  function Own(events: seq<(string, Event)>, ws: string): seq<Event> {
    if events == [] then []
    else
      var last := events[|events| - 1];
      Own(events[..|events| - 1], ws) + (if last.0 == ws then [last.1] else [])
  }

  /** However workspaces are mixed, each list is that of the workspace's own events. */
  lemma {:induction false} WorkspacesAreApart(events: seq<(string, Event)>, ws: string)
    ensures ListOf(StoreRun(events), ws) == Run(Own(events, ws))
  {
    if events != [] {
      var front, last := events[..|events| - 1], events[|events| - 1];
      WorkspacesAreApart(front, ws);
      if last.0 == ws {
        LastOff(Own(front, ws), last.1);
      } else {
        NothingMore(Own(front, ws));
      }
    }
  }

  // ---------------------------------------------------------------- runs in one workspace

  function Run(events: seq<Event>): seq<string> {
    if events == [] then [] else ListStep(Run(events[..|events| - 1]), events[|events| - 1])
  }

  /** Distinct ids by latest view, without a capacity. */
  function Unbounded(events: seq<Event>): seq<string> {
    if events == [] then []
    else
      var before, last := Unbounded(events[..|events| - 1]), events[|events| - 1];
      if last.View? then [last.id] + Without(before, last.id) else Without(before, last.id)
  }

  lemma {:induction false} WithoutMembers(s: seq<string>, id: string)
    ensures forall x :: x in Without(s, id) <==> x in s && x != id
  {
    if s != [] {
      WithoutMembers(s[1..], id);
      assert forall x :: x in s <==> x == s[0] || x in s[1..];
    }
  }

  lemma {:induction false} WithoutDistinct(s: seq<string>, id: string)
    requires Distinct(s)
    ensures Distinct(Without(s, id))
    ensures |Without(s, id)| == if id in s then |s| - 1 else |s|
  {
    if s != [] {
      assert s == [s[0]] + s[1..];
      WithoutDistinct(s[1..], id);
      WithoutMembers(s[1..], id);
      assert s[0] !in s[1..];
    }
  }

  lemma {:induction false} WithoutConcat(a: seq<string>, b: seq<string>, id: string)
    ensures Without(a + b, id) == Without(a, id) + Without(b, id)
  {
    if a == [] {
      assert a + b == b;
    } else {
      WithoutConcat(a[1..], b, id);
      FirstOff(a, b);
      Associative(if a[0] == id then [] else [a[0]], Without(a[1..], id), Without(b, id));
    }
  }

  lemma PrefixWithout(p: seq<string>, u: seq<string>, id: string)
    requires p <= u
    ensures Without(p, id) <= Without(u, id)
  {
    assert u == p + u[|p|..];
    WithoutConcat(p, u[|p|..], id);
  }

  /** Views and removals keep the unbounded list duplicate-free. */
  lemma {:induction false} UnboundedDistinct(events: seq<Event>)
    ensures Distinct(Unbounded(events))
  {
    if events != [] {
      var before, id := Unbounded(events[..|events| - 1]), events[|events| - 1].id;
      UnboundedDistinct(events[..|events| - 1]);
      WithoutDistinct(before, id);
      WithoutMembers(before, id);
    }
  }

  /** When `id` was last viewed, if nothing has removed it since. */
  function LatestView(events: seq<Event>, id: string): (k: Option<nat>)
    ensures k.Some? ==> k.value < |events| && events[k.value] == View(id)
  {
    if events == [] then None
    else
      var n := |events| - 1;
      if events[n] == View(id) then Some(n)
      else if events[n] == Gone(id) then None
      else LatestView(events[..n], id)
  }

  /** Strictly by latest view, newest first. */
  ghost predicate ByLatestView(events: seq<Event>, list: seq<string>) {
    && (forall i :: 0 <= i < |list| ==> LatestView(events, list[i]).Some?)
    && (forall i, j :: 0 <= i < j < |list| ==>
          LatestView(events, list[i]).value > LatestView(events, list[j]).value)
  }

  lemma {:induction false} WithoutOrdered(events: seq<Event>, s: seq<string>, id: string)
    requires ByLatestView(events, s)
    ensures ByLatestView(events, Without(s, id))
  {
    if s != [] {
      var rest := s[1..];
      assert forall i :: 0 <= i < |rest| ==> rest[i] == s[i + 1];
      WithoutOrdered(events, rest, id);
      WithoutMembers(rest, id);
      forall x | x in rest
        ensures LatestView(events, s[0]).value > LatestView(events, x).value
      {
        var i :| 0 <= i < |rest| && rest[i] == x;
      }
      OrderedBehind(events, s[0], Without(rest, id));
    }
  }

  lemma OrderedBehind(events: seq<Event>, x: string, list: seq<string>)
    requires ByLatestView(events, list) && LatestView(events, x).Some?
    requires forall y :: y in list ==>
      LatestView(events, y).Some? && LatestView(events, x).value > LatestView(events, y).value
    ensures ByLatestView(events, [x] + list)
  {
  }

  lemma ViewsStand(events: seq<Event>, list: seq<string>)
    requires events != [] && ByLatestView(events[..|events| - 1], list)
    requires events[|events| - 1].id !in list
    ensures ByLatestView(events, list)
  {
    forall i | 0 <= i < |list|
      ensures LatestView(events, list[i]) == LatestView(events[..|events| - 1], list[i])
    {
      assert list[i] in list;
    }
  }

  /** The list without a capacity holds exactly the ids viewed and not removed since, newest view first. */
  lemma {:induction false} UnboundedByLatestView(events: seq<Event>)
    ensures forall id :: id in Unbounded(events) <==> LatestView(events, id).Some?
    ensures ByLatestView(events, Unbounded(events))
  {
    if events != [] {
      var front, last := events[..|events| - 1], events[|events| - 1];
      var rest := Without(Unbounded(front), last.id);
      UnboundedByLatestView(front);
      WithoutMembers(Unbounded(front), last.id);
      WithoutOrdered(front, Unbounded(front), last.id);
      ViewsStand(events, rest);
      if last.View? {
        forall y | y in rest
          ensures LatestView(events, y) == LatestView(front, y)
        {
        }
        OrderedBehind(events, last.id, rest);
      }
    }
  }

  /**
   * After any run of views and removals the list is a prefix, at most ten long, of the
   * distinct ids by latest view: no duplicates, strictly newest view first, nothing skipped.
   */
  lemma {:induction false} ListIsRecentPrefix(events: seq<Event>)
    ensures Run(events) <= Unbounded(events)
    ensures |Run(events)| <= 10
    ensures Distinct(Run(events)) && ByLatestView(events, Run(events))
  {
    UnboundedDistinct(events);
    UnboundedByLatestView(events);
    if events != [] {
      var front, id := events[..|events| - 1], events[|events| - 1].id;
      ListIsRecentPrefix(front);
      PrefixWithout(Run(front), Unbounded(front), id);
      WithoutDistinct(Run(front), id);
    }
  }

  /** Without removals it is exactly the ten latest. */
  lemma {:induction false} ViewsKeepTheLatest(events: seq<Event>)
    requires forall e :: e in events ==> e.View?
    ensures Run(events) == if |Unbounded(events)| <= 10 then Unbounded(events) else Unbounded(events)[..10]
  {
    if events != [] {
      var front, last := events[..|events| - 1], events[|events| - 1];
      assert last in events;
      ViewsKeepTheLatest(front);
      ListIsRecentPrefix(events);
      UnboundedDistinct(front);
      ListIsRecentPrefix(front);
      WithoutDistinct(Run(front), last.id);
      WithoutDistinct(Unbounded(front), last.id);
    }
  }
}
