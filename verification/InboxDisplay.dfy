/** apps/mobile/lib/inbox-display.ts: one inbox row per issue. */
module InboxDisplay {
  import opened Prelude
  import opened Sorting

  /**
   * `createdAt` is in milliseconds, None where the text is no date; `commentId` is
   * details.comment_id; `body` is the rest of the row.
   */
  datatype Item = Item(
    id: string, issueId: Option<string>, archived: bool,
    createdAt: Option<int>, commentId: Option<string>, body: string)

  function Key(i: Item): string {
    i.issueId.GetOr(i.id)
  }

  /** The comparator of both sorts: newest first; sort takes the NaN of an unreadable date for 0. */
  function Newer(a: Item, b: Item): int {
    if a.createdAt.Some? && b.createdAt.Some? then b.createdAt.value - a.createdAt.value else 0
  }

  predicate Dated(s: seq<Item>) {
    forall i :: i in s ==> i.createdAt.Some?
  }

  predicate IsActive(i: Item) {
    !i.archived
  }

  function GroupOf(items: seq<Item>, key: string): seq<Item> {
    Filter(i => Key(i) == key, items)
  }

  function Keys(items: seq<Item>): (keys: seq<string>)
    ensures |keys| == |items| && forall k :: 0 <= k < |items| ==> keys[k] == Key(items[k])
  {
    seq(|items|, k requires 0 <= k < |items| => Key(items[k]))
  }

  // ---------------------------------------------------------------- what is shown

  predicate Anchored(i: Item) {
    Truthy(i.commentId)
  }

  /** group.find(item => item.details?.comment_id) */
  function FindAnchored(s: seq<Item>): (r: Option<Item>)
    ensures r.Some? ==> r.value in s && Anchored(r.value)
  {
    if s == [] then None else if Anchored(s[0]) then Some(s[0]) else FindAnchored(s[1..])
  }

  /** The first item of the sorted group, with the anchor of the first that has one if it has none itself. */
  function RowOf(group: seq<Item>): Item
    requires group != []
  {
    SortMembers(Newer, group);
    var n, found := Sort(Newer, group)[0], FindAnchored(Sort(Newer, group));
    if n.commentId.None? && found.Some? then n.(commentId := found.value.commentId) else n
  }

  /** A newest item, the earliest of them in input order. */
  function Newest(group: seq<Item>): (n: Item)
    requires group != [] && Dated(group)
    ensures n in group && forall i :: i in group ==> i.createdAt.value <= n.createdAt.value
  {
    if |group| == 1 then group[0]
    else
      var front, last := group[..|group| - 1], group[|group| - 1];
      assert group == front + [last];
      if last.createdAt.value > Newest(front).createdAt.value then last else Newest(front)
  }

  /** The newest item of a group, with the comment anchor of the newest member that has one. */
  function NewestRow(group: seq<Item>): Item
    requires group != [] && Dated(group)
  {
    FilterMembers(Anchored, group);
    var n, anchored := Newest(group), Filter(Anchored, group);
    if n.commentId.None? && anchored != [] then n.(commentId := Newest(anchored).commentId) else n
  }

  lemma GroupMembers(items: seq<Item>, key: string)
    ensures forall i :: i in GroupOf(items, key) <==> i in items && Key(i) == key
    ensures key in Keys(items) <==> GroupOf(items, key) != []
  {
    FilterMembers((i: Item) => Key(i) == key, items);
    if key in Keys(items) {
      var k :| 0 <= k < |items| && Keys(items)[k] == key;
      assert items[k] in GroupOf(items, key);
    }
    if GroupOf(items, key) != [] {
      var i := GroupOf(items, key)[0];
      assert i in GroupOf(items, key);
      var k :| 0 <= k < |items| && items[k] == i;
      assert Keys(items)[k] == key;
    }
  }

  ghost predicate Grouped(items: seq<Item>, keys: seq<string>) {
    forall key :: key in keys ==> GroupOf(items, key) != []
  }

  lemma KeysAreGrouped(items: seq<Item>, keys: seq<string>)
    requires forall key :: key in keys ==> key in Keys(items)
    ensures Grouped(items, keys)
  {
    forall key | key in keys
      ensures GroupOf(items, key) != []
    {
      GroupMembers(items, key);
    }
  }

  lemma GroupedPart(items: seq<Item>, keys: seq<string>, n: nat)
    requires n <= |keys| && Grouped(items, keys)
    ensures Grouped(items, keys[..n])
  {
  }

  function RowsFor(items: seq<Item>, keys: seq<string>): seq<Item>
    requires Grouped(items, keys)
  {
    GroupedPart(items, keys, if keys == [] then 0 else |keys| - 1);
    if keys == [] then [] else RowsFor(items, keys[..|keys| - 1]) + [RowOf(GroupOf(items, keys[|keys| - 1]))]
  }

  /** One row per key of the active items, in the order the keys first appear. */
  function Rows(items: seq<Item>): seq<Item> {
    var active := Filter(IsActive, items);
    var keys := Firsts(Keys(active));
    KeysAreGrouped(active, keys);
    RowsFor(active, keys)
  }

  /** The rows, newest first. */
  function Deduplicated(items: seq<Item>): seq<Item> {
    Sort(Newer, Rows(items))
  }

  // ---------------------------------------------------------------- sorting a group

  lemma ByTime(s: seq<Item>)
    requires Dated(s)
    ensures Consistent(Newer, s)
  {
  }

  lemma {:induction false} InsertHead(x: Item, s: seq<Item>)
    requires Sorted(Newer, s) && Dated(s) && x.createdAt.Some?
    ensures Insert(Newer, x, s)[0] == if s == [] || x.createdAt.value > s[0].createdAt.value then x else s[0]
  {
    if s != [] && Newer(s[|s| - 1], x) > 0 {
      InsertHead(x, s[..|s| - 1]);
    }
  }

  lemma {:induction false} SortHead(s: seq<Item>)
    requires s != [] && Dated(s)
    ensures Sort(Newer, s) != [] && Sort(Newer, s)[0] == Newest(s)
  {
    var front, last := s[..|s| - 1], s[|s| - 1];
    LastSplit(s);
    SortMembers(Newer, s);
    SortMembers(Newer, front);
    ByTime(front);
    SortSorts(Newer, front);
    InsertHead(last, Sort(Newer, front));
    if front != [] {
      SortHead(front);
    }
  }

  lemma InsertLast(x: Item, s: seq<Item>)
    requires s == [] || Newer(s[|s| - 1], x) <= 0
    ensures Insert(Newer, x, s) == s + [x]
  {
  }

  lemma InsertEarlier(x: Item, s: seq<Item>, last: Item)
    requires Newer(last, x) > 0
    ensures Insert(Newer, x, s + [last]) == Insert(Newer, x, s) + [last]
  {
    assert (s + [last])[..|s|] == s;
  }

  lemma KeptLast(keep: Item -> bool, s: seq<Item>, x: Item)
    requires forall i :: i in s ==> Newer(i, x) <= 0
    ensures Filter(keep, s) == [] || Newer(Filter(keep, s)[|Filter(keep, s)| - 1], x) <= 0
  {
    FilterMembers(keep, s);
    var kept := Filter(keep, s);
    if kept != [] {
      assert kept[|kept| - 1] in kept;
    }
  }

  lemma {:induction false} InsertFilters(keep: Item -> bool, x: Item, s: seq<Item>)
    requires Sorted(Newer, s) && Dated(s) && x.createdAt.Some?
    ensures Filter(keep, Insert(Newer, x, s)) ==
      if keep(x) then Insert(Newer, x, Filter(keep, s)) else Filter(keep, s)
  {
    if s == [] || Newer(s[|s| - 1], x) <= 0 {
      InsertLast(x, s);
      FilterStep(keep, s, x);
      KeptLast(keep, s, x);
      InsertLast(x, Filter(keep, s));
    } else {
      var front, last := s[..|s| - 1], s[|s| - 1];
      InsertFilters(keep, x, front);
      assert s == front + [last];
      InsertEarlier(x, front, last);
      FilterStep(keep, front, last);
      FilterStep(keep, Insert(Newer, x, front), last);
      if keep(last) {
        InsertEarlier(x, Filter(keep, front), last);
      } else {
        assert Filter(keep, s) == Filter(keep, front);
        assert Filter(keep, Insert(Newer, x, s)) == Filter(keep, Insert(Newer, x, front));
      }
    }
  }

  lemma SortStep(front: seq<Item>, last: Item)
    requires Dated(front)
    ensures Sort(Newer, front + [last]) == Insert(Newer, last, Sort(Newer, front))
    ensures Sorted(Newer, Sort(Newer, front))
  {
    assert (front + [last])[..|front|] == front;
    ByTime(front);
    SortSorts(Newer, front);
  }

  /** A stable sort commutes with filtering. */
  lemma {:induction false} SortFilters(keep: Item -> bool, s: seq<Item>)
    requires Dated(s)
    ensures Filter(keep, Sort(Newer, s)) == Sort(Newer, Filter(keep, s))
  {
    if s != [] {
      var front, last := s[..|s| - 1], s[|s| - 1];
      assert s == front + [last];
      SortFilters(keep, front);
      SortStep(front, last);
      SortMembers(Newer, front);
      FilterMembers(keep, front);
      InsertFilters(keep, last, Sort(Newer, front));
      FilterStep(keep, front, last);
      if keep(last) {
        SortStep(Filter(keep, front), last);
      } else {
        assert Filter(keep, s) == Filter(keep, front);
      }
    }
  }

  lemma {:induction false} FindIsFirst(s: seq<Item>)
    ensures FindAnchored(s) == if Filter(Anchored, s) == [] then None else Some(Filter(Anchored, s)[0])
  {
    if s != [] {
      FindIsFirst(s[1..]);
      FilterHead(s);
    }
  }

  lemma {:induction false} FilterHead(s: seq<Item>)
    requires s != []
    ensures Filter(Anchored, s) == (if Anchored(s[0]) then [s[0]] else []) + Filter(Anchored, s[1..])
  {
    if |s| == 1 {
      assert s[..0] == [] && s[1..] == [];
    } else {
      var front, last := s[..|s| - 1], s[|s| - 1];
      FilterHead(front);
      assert s[1..][..|s[1..]| - 1] == front[1..];
    }
  }

  // ---------------------------------------------------------------- the code

  /** Where all dates are readable that is the newest item with the newest anchor. */
  lemma DatedRow(group: seq<Item>)
    requires group != [] && Dated(group)
    ensures RowOf(group) == NewestRow(group)
  {
    var anchored := Filter(Anchored, group);
    FilterMembers(Anchored, group);
    SortHead(group);
    SortFilters(Anchored, group);
    FindIsFirst(Sort(Newer, group));
    SortMembers(Newer, anchored);
    if anchored != [] {
      SortHead(anchored);
    }
  }

  /** The body of the loop over the groups. */
  method MergeGroup(group: seq<Item>) returns (row: Item)
    requires group != []
    ensures row == RowOf(group)
    ensures Dated(group) ==> row == NewestRow(group)
  {
    SortMembers(Newer, group);
    var sorted := Sort(Newer, group);
    if Dated(group) {
      DatedRow(group);
    }
    var newest := sorted[0];
    var found := FindAnchored(sorted);
    var commentId := newest.commentId.Or(if found.Some? then found.value.commentId else None);
    if Truthy(commentId) && newest.commentId != commentId {
      return newest.(commentId := commentId);
    }
    return newest;
  }

  /** The Map's keys, and the items filed under each. */
  ghost predicate KeysHold(groups: map<string, seq<Item>>, items: seq<Item>) {
    forall key :: key in groups <==> key in Keys(items)
  }

  ghost predicate ListsHold(groups: map<string, seq<Item>>, items: seq<Item>) {
    forall key :: key in groups ==> groups[key] == GroupOf(items, key)
  }

  function Filed(groups: map<string, seq<Item>>, item: Item): map<string, seq<Item>> {
    groups[Key(item) := (if Key(item) in groups then groups[Key(item)] else []) + [item]]
  }

  lemma KeysFiled(groups: map<string, seq<Item>>, items: seq<Item>, item: Item)
    requires KeysHold(groups, items)
    ensures KeysHold(Filed(groups, item), items + [item])
  {
    KeysStep(items, item);
  }

  lemma ListsFiled(groups: map<string, seq<Item>>, items: seq<Item>, item: Item)
    requires KeysHold(groups, items) && ListsHold(groups, items)
    ensures ListsHold(Filed(groups, item), items + [item])
  {
    NewKeyIsAlone(items, item);
    forall k | k in groups && k != Key(item)
      ensures GroupOf(items + [item], k) == groups[k]
    {
      GroupStep(items, item, k);
    }
  }

  lemma NewKeyIsAlone(items: seq<Item>, item: Item)
    ensures GroupOf(items + [item], Key(item))
         == (if Key(item) in Keys(items) then GroupOf(items, Key(item)) else []) + [item]
  {
    GroupStep(items, item, Key(item));
    GroupMembers(items, Key(item));
  }

  lemma GroupStep(items: seq<Item>, item: Item, key: string)
    ensures GroupOf(items + [item], key) ==
      if Key(item) == key then GroupOf(items, key) + [item] else GroupOf(items, key)
  {
    FilterStep((i: Item) => Key(i) == key, items, item);
  }

  lemma KeysStep(items: seq<Item>, i: Item)
    ensures Keys(items + [i]) == Keys(items) + [Key(i)]
    ensures forall key :: key in Keys(items + [i]) <==> key in Keys(items) || key == Key(i)
  {
  }

  method GroupByIssue(active: seq<Item>) returns (order: seq<string>, groups: map<string, seq<Item>>)
    ensures order == Firsts(Keys(active))
    ensures KeysHold(groups, active) && ListsHold(groups, active)
  {
    order, groups := [], map[];
    for k := 0 to |active|
      invariant order == Firsts(Keys(active[..k]))
      invariant KeysHold(groups, active[..k]) && ListsHold(groups, active[..k])
    {
      var item := active[k];
      assert active[..k + 1] == active[..k] + [item];
      KeysStep(active[..k], item);
      FirstsStep(Keys(active[..k]), Key(item));
      KeysFiled(groups, active[..k], item);
      ListsFiled(groups, active[..k], item);
      order := if Key(item) in groups then order else order + [Key(item)];
      var group := if Key(item) in groups then groups[Key(item)] else [];
      groups := groups[Key(item) := group + [item]];
    }
    Whole(active);
  }

  /** The loop over the groups, in insertion order. */
  method MergeGroups(ghost active: seq<Item>, order: seq<string>, groups: map<string, seq<Item>>)
    returns (merged: seq<Item>)
    requires Grouped(active, order) && ListsHold(groups, active) && forall key :: key in order ==> key in groups
    ensures merged == RowsFor(active, order)
  {
    merged := [];
    for k := 0 to |order|
      invariant Grouped(active, order[..k])
      invariant merged == RowsFor(active, order[..k])
    {
      assert order[k] in order;
      var row := MergeGroup(groups[order[k]]);
      GroupedPart(active, order, k + 1);
      assert order[..k + 1] == order[..k] + [order[k]];
      LastOff(order[..k], order[k]);
      merged := merged + [row];
    }
    Whole(order);
  }

  method DeduplicateInboxItems(items: seq<Item>) returns (r: seq<Item>)
    ensures r == Deduplicated(items)
  {
    var active := Filter(IsActive, items);
    var order, groups := GroupByIssue(active);
    KeysAreGrouped(active, order);
    var merged := MergeGroups(active, order, groups);
    return Sort(Newer, merged);
  }

  // ---------------------------------------------------------------- what the reader can rely on

  lemma {:induction false} RowsMembers(items: seq<Item>, keys: seq<string>)
    requires Grouped(items, keys)
    ensures Keys(RowsFor(items, keys)) == keys
    ensures forall row :: row in RowsFor(items, keys) ==> Key(row) in keys && row == RowOf(GroupOf(items, Key(row)))
  {
    if keys != [] {
      var front, last := keys[..|keys| - 1], keys[|keys| - 1];
      LastSplit(keys);
      RowsMembers(items, front);
      RowKey(items, last);
      KeysStep(RowsFor(items, front), RowOf(GroupOf(items, last)));
    }
  }

  lemma RowKey(items: seq<Item>, key: string)
    requires GroupOf(items, key) != []
    ensures Key(RowOf(GroupOf(items, key))) == key
  {
    GroupMembers(items, key);
    RowIsFromGroup(GroupOf(items, key));
  }

  lemma {:induction false} DistinctKeysSurvive(a: seq<Item>, b: seq<Item>)
    requires Distinct(Keys(a)) && multiset(a) == multiset(b)
    ensures Distinct(Keys(b))
  {
    assert forall k :: 0 <= k < |a| ==> Keys(a)[k] == Key(a[k]);
    assert Distinct(a);
    DistinctPermutation(a, b);
    forall i, j | 0 <= i < j < |b|
      ensures Keys(b)[i] != Keys(b)[j]
    {
      assert b[i] in multiset(a) && b[j] in multiset(a);
    }
  }

  predicate ButForAnchor(row: Item, i: Item) {
    row == i.(commentId := row.commentId)
  }

  /** `row` is a member of the group, changed at most in its anchor, which a member has. */
  ghost predicate FromGroup(group: seq<Item>, row: Item) {
    && (exists i :: i in group && ButForAnchor(row, i))
    && (exists i :: i in group && row.commentId == i.commentId)
  }

  lemma RowIsFromGroup(group: seq<Item>)
    requires group != []
    ensures FromGroup(group, RowOf(group))
  {
    SortMembers(Newer, group);
    var n, found, row := Sort(Newer, group)[0], FindAnchored(Sort(Newer, group)), RowOf(group);
    assert n in group && ButForAnchor(row, n);
    if n.commentId.None? && found.Some? {
      assert found.value in group && row.commentId == found.value.commentId;
    } else {
      assert row == n;
    }
  }

  lemma RowsAreDated(items: seq<Item>, keys: seq<string>)
    requires Grouped(items, keys) && Dated(items)
    ensures Dated(RowsFor(items, keys))
  {
    RowsMembers(items, keys);
    forall row | row in RowsFor(items, keys)
      ensures row.createdAt.Some?
    {
      GroupMembers(items, Key(row));
      RowIsFromGroup(GroupOf(items, Key(row)));
    }
  }

  lemma ActiveKeys(items: seq<Item>, key: string)
    ensures key in Firsts(Keys(Filter(IsActive, items))) <==> exists i :: i in items && !i.archived && Key(i) == key
  {
    var active := Filter(IsActive, items);
    FilterMembers(IsActive, items);
    GroupMembers(active, key);
    if GroupOf(active, key) != [] {
      assert GroupOf(active, key)[0] in active;
    }
    if i :| i in items && !i.archived && Key(i) == key {
      assert i in GroupOf(active, key);
    }
  }

  /**
   * Whatever the dates are: exactly one row per key of the active items, which is a member of
   * its group, changed at most by taking the anchor of a member.
   */
  lemma OneRowPerKey(items: seq<Item>)
    ensures
      var active, r := Filter(IsActive, items), Deduplicated(items);
      && Distinct(Keys(r))
      && (forall key :: key in Keys(r) <==> exists i :: i in items && !i.archived && Key(i) == key)
      && (forall row :: row in r ==>
            var group := GroupOf(active, Key(row));
            group != [] && row == RowOf(group) && FromGroup(group, row))
  {
    var active, r := Filter(IsActive, items), Deduplicated(items);
    var keys, rows := Firsts(Keys(active)), Rows(items);
    KeysAreGrouped(active, keys);
    RowsMembers(active, keys);
    SortPermutes(Newer, rows);
    SortMembers(Newer, rows);
    DistinctKeysSurvive(rows, r);
    forall key
      ensures key in Keys(r) <==> exists i :: i in items && !i.archived && Key(i) == key
    {
      SameKeys(rows, r, key);
      ActiveKeys(items, key);
    }
    forall row | row in r
      ensures GroupOf(active, Key(row)) != [] && FromGroup(GroupOf(active, Key(row)), row)
    {
      assert row in rows && Key(row) in keys;
      RowIsFromGroup(GroupOf(active, Key(row)));
    }
  }

  /** Two items of one issue; an item without an issue stands for the issue with its own id. */
  predicate SameIssue(a: Item, b: Item) {
    match (a.issueId, b.issueId)
    case (Some(x), Some(y)) => x == y
    case (Some(x), None) => x == b.id
    case (None, Some(y)) => a.id == y
    case (None, None) => a.id == b.id
  }

  lemma SameIssueIff(a: Item, b: Item)
    ensures Key(a) == Key(b) <==> SameIssue(a, b)
  {
  }

  /** Each row is an active item of its issue, but for its anchor. */
  lemma RowIsOfIssue(items: seq<Item>, row: Item) returns (i: Item)
    requires row in Deduplicated(items)
    ensures i in items && !i.archived && ButForAnchor(row, i) && SameIssue(i, row)
  {
    var active := Filter(IsActive, items);
    OneRowPerKey(items);
    FilterMembers(IsActive, items);
    GroupMembers(active, Key(row));
    i :| i in GroupOf(active, Key(row)) && ButForAnchor(row, i);
  }

  lemma IssueHasRow(items: seq<Item>, i: Item) returns (row: Item)
    requires i in items && !i.archived
    ensures row in Deduplicated(items) && SameIssue(i, row)
  {
    var r := Deduplicated(items);
    OneRowPerKey(items);
    assert Key(i) in Keys(r);
    var k :| 0 <= k < |r| && Keys(r)[k] == Key(i);
    row := r[k];
    SameIssueIff(i, row);
  }

  /**
   * What deduplication is for, on the items themselves: no two rows are of one issue, every active
   * item is of the issue of a row, and two active items share a row exactly when they are of one issue.
   */
  lemma OneRowPerIssue(items: seq<Item>)
    ensures
      var r := Deduplicated(items);
      && (forall j, k :: 0 <= j < k < |r| ==> !SameIssue(r[j], r[k]))
      && (forall i :: i in items && !i.archived ==> exists row :: row in r && SameIssue(i, row))
      && (forall row :: row in r ==> exists i :: i in items && !i.archived && SameIssue(i, row) && ButForAnchor(row, i))
  {
    var r := Deduplicated(items);
    OneRowPerKey(items);
    forall j, k | 0 <= j < k < |r|
      ensures !SameIssue(r[j], r[k])
    {
      assert Keys(r)[j] != Keys(r)[k];
      SameIssueIff(r[j], r[k]);
    }
    forall i | i in items && !i.archived
      ensures exists row :: row in r && SameIssue(i, row)
    {
      var row := IssueHasRow(items, i);
    }
    forall row | row in r
      ensures exists i :: i in items && !i.archived && SameIssue(i, row) && ButForAnchor(row, i)
    {
      var i := RowIsOfIssue(items, row);
    }
  }

  lemma ItemsShareRowIff(items: seq<Item>, a: Item, b: Item)
    requires a in items && !a.archived && b in items && !b.archived
    ensures (exists row :: row in Deduplicated(items) && SameIssue(a, row) && SameIssue(b, row)) <==> SameIssue(a, b)
  {
    if SameIssue(a, b) {
      var row := IssueHasRow(items, a);
      assert SameIssue(b, row);
    }
  }

  /** Where all dates are readable, each row shows the newest of its group, and rows come newest first. */
  lemma RowsAreNewest(items: seq<Item>)
    requires Dated(Filter(IsActive, items))
    ensures
      var active, r := Filter(IsActive, items), Deduplicated(items);
      && (forall row :: row in r ==>
            var group := GroupOf(active, Key(row));
            group != [] && Dated(group) && row == NewestRow(group))
      && Dated(r) && (forall j, k :: 0 <= j < k < |r| ==> r[j].createdAt.value >= r[k].createdAt.value)
      && Sorted(Newer, r)
  {
    var active, r := Filter(IsActive, items), Deduplicated(items);
    OneRowPerKey(items);
    forall row | row in r
      ensures Dated(GroupOf(active, Key(row))) && row == NewestRow(GroupOf(active, Key(row)))
    {
      GroupMembers(active, Key(row));
      DatedRow(GroupOf(active, Key(row)));
    }
    KeysAreGrouped(active, Firsts(Keys(active)));
    RowsAreDated(active, Firsts(Keys(active)));
    SortMembers(Newer, Rows(items));
    ByTime(Rows(items));
    SortSorts(Newer, Rows(items));
    forall j, k | 0 <= j < k < |r|
      ensures r[j].createdAt.value >= r[k].createdAt.value
    {
      assert r[j] in r && r[k] in r && Newer(r[j], r[k]) <= 0;
    }
  }

  lemma SameKeys(a: seq<Item>, b: seq<Item>, key: string)
    requires forall i :: i in a <==> i in b
    ensures key in Keys(a) <==> key in Keys(b)
  {
    GroupMembers(a, key);
    GroupMembers(b, key);
    assert GroupOf(a, key) != [] ==> GroupOf(a, key)[0] in GroupOf(b, key);
    assert GroupOf(b, key) != [] ==> GroupOf(b, key)[0] in GroupOf(a, key);
  }

  /** An anchored member that no anchored member is newer than. */
  ghost predicate NewestAnchored(group: seq<Item>, a: Item)
    requires Dated(group)
  {
    a in group && Anchored(a) && forall i :: i in group && Anchored(i) ==> i.createdAt.value <= a.createdAt.value
  }

  /**
   * A row is a newest member of its group, changed at most in its anchor: its own one where it has
   * one, even an empty one, else the anchor of the newest member that has one. So an anchor of
   * the group is shown unless the newest member carries the empty string.
   */
  lemma RowShowsNewest(group: seq<Item>)
    requires group != [] && Dated(group)
    ensures
      var n, row := Newest(group), RowOf(group);
      && row == n.(commentId := row.commentId)
      && (n.commentId.Some? ==> row == n)
      && (n.commentId.None? ==>
            if exists a :: a in group && Anchored(a)
            then exists a :: NewestAnchored(group, a) && row.commentId == a.commentId
            else row == n)
      && ((exists a :: a in group && Anchored(a)) ==> (Anchored(row) <==> n.commentId != Some("")))
  {
    DatedRow(group);
    FilterMembers(Anchored, group);
    var n, anchored := Newest(group), Filter(Anchored, group);
    assert forall i :: i in group && Anchored(i) ==> i in anchored;
    if anchored != [] {
      assert anchored[0] in anchored;
      assert NewestAnchored(group, Newest(anchored));
    }
  }

  /** A status event with an empty anchor, after a comment: the group's one anchor is not shown. */
  lemma EmptyAnchorHides(group: seq<Item>)
    requires group == [Item("a", Some("issue"), false, Some(1), Some("c"), ""),
                       Item("b", Some("issue"), false, Some(2), Some(""), "")]
    ensures RowOf(group) == group[1] && !Anchored(RowOf(group)) && Anchored(group[0])
  {
    assert group[0] in group && group[1] in group;
    RowShowsNewest(group);
  }

  /** Rows of the same time stay in the order in which their issues first appear. */
  lemma TiesKeepIssueOrder(items: seq<Item>, time: int)
    requires Dated(Filter(IsActive, items))
    ensures Filter((i: Item) => i.createdAt == Some(time), Deduplicated(items))
         == Filter((i: Item) => i.createdAt == Some(time), Rows(items))
  {
    var active := Filter(IsActive, items);
    KeysAreGrouped(active, Firsts(Keys(active)));
    RowsAreDated(active, Firsts(Keys(active)));
    SameTime(Rows(items), (i: Item) => i.createdAt == Some(time), time);
  }

  lemma SameTime(rows: seq<Item>, atTime: Item -> bool, time: int)
    requires Dated(rows) && forall i :: atTime(i) <==> i.createdAt == Some(time)
    ensures Filter(atTime, Sort(Newer, rows)) == Filter(atTime, rows)
  {
    SortFilters(atTime, rows);
    FilterMembers(atTime, rows);
    SortIdentity(Newer, Filter(atTime, rows));
  }

  /** Unreadable dates compare as equal: where no date is readable, rows stay as their issues first appear. */
  lemma UndatedKeepOrder(items: seq<Item>)
    requires forall i :: i in items ==> i.createdAt.None?
    ensures Deduplicated(items) == Rows(items)
  {
    var active := Filter(IsActive, items);
    var rows := Rows(items);
    FilterMembers(IsActive, items);
    KeysAreGrouped(active, Firsts(Keys(active)));
    RowsMembers(active, Firsts(Keys(active)));
    forall row | row in rows
      ensures row.createdAt.None?
    {
      GroupMembers(active, Key(row));
      RowIsFromGroup(GroupOf(active, Key(row)));
    }
    SortIdentity(Newer, rows);
  }

  // ---------------------------------------------------------------- applying it twice

  lemma {:induction false} SingletonGroups(r: seq<Item>, k: nat)
    requires Distinct(Keys(r)) && k < |r|
    ensures GroupOf(r, Key(r[k])) == [r[k]]
  {
    var front, last := r[..|r| - 1], r[|r| - 1];
    assert r == front + [last];
    assert Keys(front) == Keys(r)[..|r| - 1];
    FilterStep((i: Item) => Key(i) == Key(r[k]), front, last);
    assert forall j :: 0 <= j < |front| ==> Keys(front)[j] == Keys(r)[j] && Keys(r)[j] != Keys(r)[|r| - 1];
    if k < |r| - 1 {
      SingletonGroups(front, k);
    } else {
      GroupMembers(front, Key(last));
    }
  }

  lemma {:induction false} AllKept(r: seq<Item>)
    requires forall i :: i in r ==> IsActive(i)
    ensures Filter(IsActive, r) == r
  {
    if r != [] {
      assert r == r[..|r| - 1] + [r[|r| - 1]];
      AllKept(r[..|r| - 1]);
    }
  }

  lemma {:induction false} RowsOfSingletons(r: seq<Item>, n: nat)
    requires Distinct(Keys(r)) && n <= |r|
    requires Grouped(r, Keys(r)[..n])
    ensures RowsFor(r, Keys(r)[..n]) == r[..n]
  {
    if n > 0 {
      assert Keys(r)[..n] == Keys(r)[..n - 1] + [Keys(r)[n - 1]];
      LastOff(Keys(r)[..n - 1], Keys(r)[n - 1]);
      assert r[..n] == r[..n - 1] + [r[n - 1]];
      GroupedPart(r, Keys(r)[..n], n - 1);
      RowsOfSingletons(r, n - 1);
      SingletonGroups(r, n - 1);
      SingletonRow(r[n - 1]);
    }
  }

  lemma SingletonRow(i: Item)
    ensures RowOf([i]) == i
  {
    SortMembers(Newer, [i]);
    assert Sort(Newer, [i])[0] in [i];
    assert forall x :: x in Sort(Newer, [i]) ==> x == i;
  }

  lemma CleanIsFixed(r: seq<Item>)
    requires Distinct(Keys(r)) && Sorted(Newer, r) && forall i :: i in r ==> IsActive(i)
    ensures Deduplicated(r) == r
  {
    AllKept(r);
    FirstsIdentity(Keys(r));
    RowsOfSelf(r);
    SortIdentity(Newer, r);
  }

  lemma RowsOfSelf(r: seq<Item>)
    requires Distinct(Keys(r))
    ensures Grouped(r, Keys(r)) && RowsFor(r, Keys(r)) == r
  {
    KeysAreGrouped(r, Keys(r));
    Whole(Keys(r));
    Whole(r);
    RowsOfSingletons(r, |r|);
  }

  lemma RowIsActive(items: seq<Item>, row: Item)
    requires row in Deduplicated(items)
    ensures IsActive(row)
  {
    var active := Filter(IsActive, items);
    OneRowPerKey(items);
    FilterMembers(IsActive, items);
    GroupMembers(active, Key(row));
  }

  /** Where all dates are readable, deduplicating twice is deduplicating once. */
  lemma DeduplicationIdempotent(items: seq<Item>)
    requires Dated(Filter(IsActive, items))
    ensures Deduplicated(Deduplicated(items)) == Deduplicated(items)
  {
    OneRowPerKey(items);
    RowsAreNewest(items);
    forall row | row in Deduplicated(items)
      ensures IsActive(row)
    {
      RowIsActive(items, row);
    }
    CleanIsFixed(Deduplicated(items));
  }

  /** Whatever the dates are, the second pass only sorts the rows again. */
  lemma SecondPassSorts(items: seq<Item>)
    ensures Deduplicated(Deduplicated(items)) == Sort(Newer, Deduplicated(items))
  {
    var r := Deduplicated(items);
    OneRowPerKey(items);
    forall row | row in r
      ensures IsActive(row)
    {
      RowIsActive(items, row);
    }
    AllKept(r);
    FirstsIdentity(Keys(r));
    RowsOfSelf(r);
  }
}
