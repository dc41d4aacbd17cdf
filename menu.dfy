/**
 * The menu: a static tree of items. Each item links to its previous and
 * next sibling and to its first child; a parent link, rewritten by
 * navigation, lets `Exit` climb back up. Items live in an arena and refer
 * to each other by index; `None` plays the null pointer.
 */
module Menu {
  import opened Optional

  /** Rows on one page of the menu. */
  const PageItemCount: nat := 5
  /** Header shown above the top-level items. */
  const RootHeader: string := "Pocket Key"

  datatype Action = Prev | Next | Enter | Exit

  /** A callback pointer (`None` for a null pointer) and the argument it is called with. */
  datatype Handler = Handler(callback: Option<nat>, param: int)

  /** One callback invocation: which function, with which argument. */
  datatype Call = Call(callback: nat, param: int)

  datatype Item = Item(
    text: string,
    prev: Option<nat>,
    next: Option<nat>,
    child: Option<nat>,
    enterHandler: Handler,
    exitHandler: Handler)

  /** A body row of the screen: the selection marker and the item text (empty for a blank row). */
  datatype Row = Row(marked: bool, text: string)

  /** What `draw` prints: the header, `index + 1`, the sibling count, and the rows of the page. */
  datatype Screen = Screen(header: string, position: nat, total: nat, rows: seq<Row>)

  // ---------------------------------------------------------------------------
  // The item arena
  // ---------------------------------------------------------------------------

  /**
   * The links of item `i` in a well-built menu: its siblings link back to
   * it, and a sibling list is laid out in the arena in order (a previous
   * sibling has a smaller index, a next sibling a larger one).
   */
  predicate LinkedAt(items: seq<Item>, i: nat)
    requires i < |items|
  {
    && (items[i].prev.Some? ==> items[i].prev.value < i && items[items[i].prev.value].next == Some(i))
    && (items[i].next.Some? ==> i < items[i].next.value < |items| && items[items[i].next.value].prev == Some(i))
    && (items[i].child.Some? ==> items[i].child.value < |items|)
  }

  /**
   * A well-built menu: every item is linked as `LinkedAt` says, so no sibling
   * list is circular, and there are fewer than 256 items, so the `uint8_t`
   * counters of `draw` never wrap.
   */
  predicate Linked(items: seq<Item>)
  {
    && |items| < 0x100
    && forall i :: 0 <= i < |items| ==> LinkedAt(items, i)
  }

  /** Every parent link names an item of the arena. */
  predicate ParentsIn(items: seq<Item>, parent: seq<Option<nat>>)
  {
    && |parent| == |items|
    && forall j :: 0 <= j < |parent| && parent[j].Some? ==> parent[j].value < |items|
  }

  /** How many `prev` links lead away from item `i`: its index among its siblings. */
  function PrevCount(items: seq<Item>, i: nat): (n: nat)
    requires Linked(items) && i < |items|
    ensures n <= i
    decreases i
  {
    assert LinkedAt(items, i);
    match items[i].prev
    case None => 0
    case Some(p) => 1 + PrevCount(items, p)
  }

  /** How many `next` links lead away from item `i`. */
  function NextCount(items: seq<Item>, i: nat): (n: nat)
    requires Linked(items) && i < |items|
    ensures n < |items| - i
    decreases |items| - i
  {
    assert LinkedAt(items, i);
    match items[i].next
    case None => 0
    case Some(q) => 1 + NextCount(items, q)
  }

  /** The first sibling of item `i`. */
  function First(items: seq<Item>, i: nat): (f: nat)
    requires Linked(items) && i < |items|
    ensures f <= i && items[f].prev.None?
    decreases i
  {
    assert LinkedAt(items, i);
    match items[i].prev
    case None => i
    case Some(p) => First(items, p)
  }

  /** Item `h` and the siblings that follow it, in `next` order. */
  function Chain(items: seq<Item>, h: nat): (c: seq<nat>)
    requires Linked(items) && h < |items|
    ensures 1 <= |c| <= |items| - h && c[0] == h
    ensures forall q :: 0 <= q < |c| ==> h <= c[q] < |items|
    decreases |items| - h
  {
    assert LinkedAt(items, h);
    match items[h].next
    case None => [h]
    case Some(q) => [h] + Chain(items, q)
  }

  /**
   * All siblings of item `i` (itself included), first to last: `i` comes
   * after `PrevCount(i)` of them and before `NextCount(i)`.
   */
  function Siblings(items: seq<Item>, i: nat): (s: seq<nat>)
    requires Linked(items) && i < |items|
    ensures |s| == PrevCount(items, i) + 1 + NextCount(items, i) <= |items|
    ensures s[PrevCount(items, i)] == i
  {
    ChainFromFirst(items, i);
    ChainLinks(items, i);
    Chain(items, First(items, i))
  }

  // ---------------------------------------------------------------------------
  // Properties of the sibling lists
  // ---------------------------------------------------------------------------

  /** A chain follows the `next` links one by one, in increasing index order, and ends where they end. */
  lemma {:induction false} ChainLinks(items: seq<Item>, h: nat)
    requires Linked(items) && h < |items|
    ensures var c := Chain(items, h);
      && (forall q :: 0 <= q < |c| - 1 ==> items[c[q]].next == Some(c[q + 1]) && c[q] < c[q + 1])
      && items[c[|c| - 1]].next.None?
      && |c| == 1 + NextCount(items, h)
    decreases |items| - h
  {
    var c := Chain(items, h);
    assert LinkedAt(items, h);
    match items[h].next
    case None =>
    case Some(n) =>
      ChainLinks(items, n);
      assert c == [h] + Chain(items, n);
  }

  /** In a chain, each item's predecessor is the one before it. */
  lemma ChainBackLinks(items: seq<Item>, h: nat)
    requires Linked(items) && h < |items|
    ensures var c := Chain(items, h);
      forall q :: 0 < q < |c| ==> items[c[q]].prev == Some(c[q - 1])
  {
    ChainLinks(items, h);
    var c := Chain(items, h);
    forall q | 0 < q < |c| ensures items[c[q]].prev == Some(c[q - 1]) {
      assert LinkedAt(items, c[q - 1]);
    }
  }

  /** Item `i` sits in its sibling list after exactly `PrevCount` siblings. */
  lemma {:induction false} ChainFromFirst(items: seq<Item>, i: nat)
    requires Linked(items) && i < |items|
    ensures PrevCount(items, i) < |Chain(items, First(items, i))|
    ensures Chain(items, First(items, i))[PrevCount(items, i)..] == Chain(items, i)
    decreases i
  {
    assert LinkedAt(items, i);
    match items[i].prev
    case None =>
    case Some(p) =>
      ChainFromFirst(items, p);
      var s := Chain(items, First(items, p));
      assert Chain(items, First(items, i)) == s;
      assert Chain(items, p) == [p] + Chain(items, i);
      assert s[PrevCount(items, p)..][1..] == s[PrevCount(items, i)..];
  }

  /** Walking a sibling list: it starts and ends where the links do, and each item links to its neighbours. */
  lemma SiblingsLinked(items: seq<Item>, i: nat)
    requires Linked(items) && i < |items|
    ensures var s := Siblings(items, i);
      && items[s[0]].prev.None?
      && items[s[|s| - 1]].next.None?
      && (forall q :: 0 <= q < |s| - 1 ==> items[s[q]].next == Some(s[q + 1]))
      && (forall q :: 0 < q < |s| ==> items[s[q]].prev == Some(s[q - 1]))
  {
    ChainLinks(items, First(items, i));
    ChainBackLinks(items, First(items, i));
  }

  /** No item appears twice in a sibling list. */
  lemma SiblingsDistinct(items: seq<Item>, i: nat)
    requires Linked(items) && i < |items|
    ensures var s := Siblings(items, i);
      forall q, r :: 0 <= q < r < |s| ==> s[q] < s[r]
  {
    ChainLinks(items, First(items, i));
    Increasing(Siblings(items, i));
  }

  /** A sequence that grows at every step grows overall. */
  lemma {:induction false} Increasing(s: seq<nat>)
    requires forall q :: 0 <= q < |s| - 1 ==> s[q] < s[q + 1]
    ensures forall q, r :: 0 <= q < r < |s| ==> s[q] < s[r]
  {
    if |s| > 1 {
      Increasing(s[1..]);
      forall q, r | 0 <= q < r < |s| ensures s[q] < s[r] {
        if q > 0 {
          assert s[1..][q - 1] < s[1..][r - 1];
        } else if r > 1 {
          assert s[1..][0] < s[1..][r - 1];
        }
      }
    }
  }

  // ---------------------------------------------------------------------------
  // The screen
  // ---------------------------------------------------------------------------

  /** The header: the parent's text, or the root title for a top-level item. */
  function Header(items: seq<Item>, parent: seq<Option<nat>>, i: nat): string
    requires ParentsIn(items, parent) && i < |items|
  {
    match parent[i]
    case None => RootHeader
    case Some(p) => items[p].text
  }

  /** Index of the first sibling on the page that shows position `index`. */
  function PageStart(index: nat): nat
  {
    index - index % PageItemCount
  }

  /**
   * The rows of the page that holds item `i`: its siblings from the start of
   * the page on, the current one marked, and blank rows past the last sibling.
   */
  function PageRows(items: seq<Item>, i: nat): (rows: seq<Row>)
    requires Linked(items) && i < |items|
    ensures |rows| == PageItemCount
  {
    var s := Siblings(items, i);
    var start := PageStart(PrevCount(items, i));
    seq(PageItemCount, k requires 0 <= k < PageItemCount =>
      if start + k < |s| then Row(s[start + k] == i, items[s[start + k]].text) else Row(false, ""))
  }

  /** What `draw` shows for item `i`: the header, `index + 1`, the number of siblings, and the page. */
  function Layout(items: seq<Item>, parent: seq<Option<nat>>, i: nat): (screen: Screen)
    requires Linked(items) && ParentsIn(items, parent) && i < |items|
    ensures |screen.rows| == PageItemCount
  {
    Screen(Header(items, parent, i), PrevCount(items, i) + 1, |Siblings(items, i)|, PageRows(items, i))
  }

  /**
   * The screen counts item `i` as position `index + 1` of `total` siblings:
   * the sibling list holds `total` items and `i` is its `index`-th.
   */
  lemma LayoutPosition(items: seq<Item>, parent: seq<Option<nat>>, i: nat)
    requires Linked(items) && ParentsIn(items, parent) && i < |items|
    ensures var screen := Layout(items, parent, i);
      && 1 <= screen.position <= screen.total
      && Siblings(items, i)[screen.position - 1] == i
      && screen.total == PrevCount(items, i) + 1 + NextCount(items, i)
  {
  }

  /** Exactly one row is marked, the one at `index mod 5`, and it shows item `i`. */
  lemma LayoutMarksCurrent(items: seq<Item>, parent: seq<Option<nat>>, i: nat)
    requires Linked(items) && ParentsIn(items, parent) && i < |items|
    ensures var screen := Layout(items, parent, i);
      var k := PrevCount(items, i) % PageItemCount;
      && screen.rows[k] == Row(true, items[i].text)
      && forall r :: 0 <= r < PageItemCount && r != k ==> !screen.rows[r].marked
  {
    SiblingsDistinct(items, i);
  }

  /**
   * The rows show consecutive siblings starting at a multiple of 5; a row is
   * blank exactly when it lies past the last sibling.
   */
  lemma LayoutPage(items: seq<Item>, parent: seq<Option<nat>>, i: nat)
    requires Linked(items) && ParentsIn(items, parent) && i < |items|
    ensures var screen := Layout(items, parent, i);
      var s := Siblings(items, i);
      var start := PageStart(PrevCount(items, i));
      && start % PageItemCount == 0 && start <= PrevCount(items, i) < start + PageItemCount
      && forall k :: 0 <= k < PageItemCount ==>
           (start + k < |s| ==> screen.rows[k].text == items[s[start + k]].text) &&
           (start + k >= |s| ==> screen.rows[k] == Row(false, ""))
  {
  }

  // ---------------------------------------------------------------------------
  // Navigation
  // ---------------------------------------------------------------------------

  /** The call a handler makes, if its callback pointer is set. */
  function Invoke(h: Handler): (c: Option<Call>)
    ensures c.Some? <==> h.callback.Some?
    ensures c.Some? ==> c.value.callback == h.callback.value && c.value.param == h.param
  {
    match h.callback
    case None => None
    case Some(f) => Some(Call(f, h.param))
  }

  /** The result of one navigation step: new parent links, the item to move to, the callback made. */
  datatype Outcome = Outcome(parent: seq<Option<nat>>, target: Option<nat>, call: Option<Call>)

  /** What `navigate` decides for `action` when the current item is `c`. */
  function Transition(items: seq<Item>, parent: seq<Option<nat>>, c: nat, action: Action): (t: Outcome)
    requires Linked(items) && ParentsIn(items, parent) && c < |items|
    ensures ParentsIn(items, t.parent)
    ensures t.target.Some? ==> t.target.value < |items|
    ensures forall j :: 0 <= j < |items| && Some(j) != t.target ==> t.parent[j] == parent[j]
    ensures action == Prev ==> t.target == items[c].prev && t.call.None?
    ensures action == Next ==> t.target == items[c].next && t.call.None?
    ensures action == Enter ==> t.target == items[c].child && t.call == Invoke(items[c].enterHandler)
    ensures action == Exit ==> t.target == parent[c] && t.call == Invoke(items[c].exitHandler) && t.parent == parent
    ensures (action == Prev || action == Next) && t.target.Some? ==> t.parent[t.target.value] == parent[c]
    ensures action == Enter && t.target.Some? ==> t.parent[t.target.value] == Some(c)
  {
    assert LinkedAt(items, c);
    match action
    case Prev =>
      var n := items[c].prev;
      Outcome(if n.Some? then parent[n.value := parent[c]] else parent, n, None)
    case Next =>
      var n := items[c].next;
      Outcome(if n.Some? then parent[n.value := parent[c]] else parent, n, None)
    case Enter =>
      var n := items[c].child;
      Outcome(if n.Some? then parent[n.value := Some(c)] else parent, n, Invoke(items[c].enterHandler))
    case Exit =>
      Outcome(parent, parent[c], Invoke(items[c].exitHandler))
  }

  /** The current item after a step: the target, unless there is none or it is the current item itself. */
  function Moved(c: nat, target: Option<nat>): (r: nat)
    ensures r == c || target == Some(r)
    ensures target.Some? && target.value != c ==> r == target.value
  {
    if target.Some? && target.value != c then target.value else c
  }

  /** Moving to a sibling keeps the header: the new item gets the old item's parent. */
  lemma SiblingMoveKeepsHeader(items: seq<Item>, parent: seq<Option<nat>>, c: nat, action: Action)
    requires Linked(items) && ParentsIn(items, parent) && c < |items|
    requires action == Prev || action == Next
    ensures var t := Transition(items, parent, c, action);
      var n := Moved(c, t.target);
      Header(items, t.parent, n) == Header(items, parent, c)
  {
  }

  /** Entering an item with a child shows the child under the entered item's text. */
  lemma EnterShowsParentText(items: seq<Item>, parent: seq<Option<nat>>, c: nat)
    requires Linked(items) && ParentsIn(items, parent) && c < |items|
    requires items[c].child.Some? && items[c].child.value != c
    ensures var t := Transition(items, parent, c, Enter);
      && Moved(c, t.target) == items[c].child.value
      && Header(items, t.parent, items[c].child.value) == items[c].text
  {
  }

  /**
   * `Enter` on an item with a child, then `Exit`: back at the original item,
   * with the enter callback and then the child's exit callback made.
   */
  lemma EnterThenExit(items: seq<Item>, parent: seq<Option<nat>>, c: nat)
    requires Linked(items) && ParentsIn(items, parent) && c < |items|
    requires items[c].child.Some? && items[c].child.value != c
    ensures var t1 := Transition(items, parent, c, Enter);
      var ch := Moved(c, t1.target);
      var t2 := Transition(items, t1.parent, ch, Exit);
      && ch == items[c].child.value
      && Moved(ch, t2.target) == c
      && t2.parent == t1.parent
      && t1.call == Invoke(items[c].enterHandler)
      && t2.call == Invoke(items[ch].exitHandler)
  {
  }

  /** `Next` then `Prev`: back at the original item, whose parent link is unchanged. */
  lemma NextThenPrev(items: seq<Item>, parent: seq<Option<nat>>, c: nat)
    requires Linked(items) && ParentsIn(items, parent) && c < |items|
    requires items[c].next.Some?
    ensures var t1 := Transition(items, parent, c, Next);
      var n := Moved(c, t1.target);
      var t2 := Transition(items, t1.parent, n, Prev);
      && n == items[c].next.value
      && Moved(n, t2.target) == c
      && t2.parent[c] == parent[c]
      && t2.parent[n] == parent[c]
  {
    assert LinkedAt(items, c);
  }

  /** `Prev` then `Next`: back at the original item, whose parent link is unchanged. */
  lemma PrevThenNext(items: seq<Item>, parent: seq<Option<nat>>, c: nat)
    requires Linked(items) && ParentsIn(items, parent) && c < |items|
    requires items[c].prev.Some?
    ensures var t1 := Transition(items, parent, c, Prev);
      var p := Moved(c, t1.target);
      var t2 := Transition(items, t1.parent, p, Next);
      && p == items[c].prev.value
      && Moved(p, t2.target) == c
      && t2.parent[c] == parent[c]
      && t2.parent[p] == parent[c]
  {
    assert LinkedAt(items, c);
  }

  /** At the first sibling `Prev`, at the last `Next`, at the top `Exit` and on a leaf `Enter` stay put. */
  lemma StaysAtEdges(items: seq<Item>, parent: seq<Option<nat>>, c: nat, action: Action)
    requires Linked(items) && ParentsIn(items, parent) && c < |items|
    requires match action
      case Prev => items[c].prev.None?
      case Next => items[c].next.None?
      case Enter => items[c].child.None?
      case Exit => parent[c].None?
    ensures var t := Transition(items, parent, c, action);
      Moved(c, t.target) == c && t.parent == parent
  {
  }

  // ---------------------------------------------------------------------------
  // The navigator
  // ---------------------------------------------------------------------------

  class Navigator {
    /** The static menu tree. */
    const items: seq<Item>
    /** The parent link of every item. */
    var parent: seq<Option<nat>>
    /** The current item; `None` until the first `Draw`. */
    var current: Option<nat>

    ghost predicate Valid()
      reads this
    {
      && Linked(items)
      && ParentsIn(items, parent)
      && (current.Some? ==> current.value < |items|)
    }

    /** A menu with its initial parent links and no current item. */
    constructor (tree: seq<Item>, parents: seq<Option<nat>>)
      requires Linked(tree) && ParentsIn(tree, parents)
      ensures Valid() && items == tree && parent == parents && current.None?
    {
      items := tree;
      parent := parents;
      current := None;
    }

    /**
     * Makes `item` current and builds its screen by walking the sibling
     * links; a null item changes nothing.
     */
    method Draw(item: Option<nat>) returns (screen: Option<Screen>)
      requires Valid() && (item.Some? ==> item.value < |items|)
      modifies this
      ensures Valid() && parent == old(parent)
      ensures item.None? ==> current == old(current) && screen.None?
      ensures item.Some? ==> current == item && screen == Some(Layout(items, parent, item.value))
    {
      if item.None? {
        return None;
      }
      var cur := item.value;
      current := item;
      var header := Header(items, parent, cur);

      var prevItemCount := CountPrev(cur);
      var nextItemCount := CountNext(cur);
      var itemIdx := prevItemCount;
      var itemsCount := prevItemCount + 1 + nextItemCount;

      var itemOffset := itemIdx % PageItemCount;
      var first := WalkBack(cur, itemOffset);
      var rows := FillRows(cur, first);
      screen := Some(Screen(header, itemIdx + 1, itemsCount, rows));
    }

    /** Counts the `prev` links from item `cur`. */
    method CountPrev(cur: nat) returns (prevItemCount: nat)
      requires Linked(items) && cur < |items|
      ensures prevItemCount == PrevCount(items, cur)
    {
      prevItemCount := 0;
      assert LinkedAt(items, cur);
      var p: Option<nat> := items[cur].prev;
      while p.Some?
        invariant p.Some? ==> p.value < |items|
        invariant prevItemCount + (if p.Some? then 1 + PrevCount(items, p.value) else 0) == PrevCount(items, cur)
        decreases if p.Some? then p.value + 1 else 0
      {
        assert LinkedAt(items, p.value);
        prevItemCount := prevItemCount + 1;
        p := items[p.value].prev;
      }
    }

    /** Counts the `next` links from item `cur`. */
    method CountNext(cur: nat) returns (nextItemCount: nat)
      requires Linked(items) && cur < |items|
      ensures nextItemCount == NextCount(items, cur)
    {
      nextItemCount := 0;
      assert LinkedAt(items, cur);
      var p: Option<nat> := items[cur].next;
      while p.Some?
        invariant p.Some? ==> cur < p.value < |items|
        invariant nextItemCount + (if p.Some? then 1 + NextCount(items, p.value) else 0) == NextCount(items, cur)
        decreases if p.Some? then |items| - p.value else 0
      {
        assert LinkedAt(items, p.value);
        nextItemCount := nextItemCount + 1;
        p := items[p.value].next;
      }
    }

    /** Follows `itemOffset` `prev` links back from item `cur`. */
    method WalkBack(cur: nat, itemOffset: nat) returns (first: nat)
      requires Linked(items) && cur < |items| && itemOffset <= PrevCount(items, cur)
      ensures first == Siblings(items, cur)[PrevCount(items, cur) - itemOffset]
    {
      SiblingsLinked(items, cur);
      ghost var s := Siblings(items, cur);
      ghost var index := PrevCount(items, cur);
      var offset := itemOffset;
      var p := Some(cur);
      while offset > 0
        invariant 0 <= offset <= itemOffset
        invariant p == Some(s[index - (itemOffset - offset)])
      {
        p := items[p.value].prev;
        offset := offset - 1;
      }
      first := p.value;
    }

    /** Fills the five rows of the page that starts at sibling `first`, marking item `cur`. */
    method FillRows(cur: nat, first: nat) returns (rows: seq<Row>)
      requires Linked(items) && cur < |items|
      requires first == Siblings(items, cur)[PageStart(PrevCount(items, cur))]
      ensures rows == PageRows(items, cur)
    {
      SiblingsLinked(items, cur);
      ghost var s := Siblings(items, cur);
      ghost var page := PageRows(items, cur);
      var start := PageStart(PrevCount(items, cur));
      var p := Some(first);
      var itemOffset := 0;
      rows := [];
      while itemOffset < PageItemCount
        invariant 0 <= itemOffset <= PageItemCount && |rows| == itemOffset
        invariant p == if start + itemOffset < |s| then Some(s[start + itemOffset]) else None
        invariant forall k :: 0 <= k < itemOffset ==> rows[k] == page[k]
      {
        if p == Some(cur) {
          rows := rows + [Row(true, items[cur].text)];
        } else {
          rows := rows + [Row(false, if p.Some? then items[p.value].text else "")];
        }
        assert rows[itemOffset] == page[itemOffset];
        p := if p.Some? then items[p.value].next else None;
        itemOffset := itemOffset + 1;
      }
      assert rows == page;
    }

    /**
     * Applies `action` to the current item: rewrites the target's parent link,
     * makes the handler's callback, and draws the target when it exists and
     * differs from the current item. Returns the current item afterwards.
     */
    method Navigate(action: Action) returns (result: Option<nat>, call: Option<Call>, screen: Option<Screen>)
      requires Valid()
      modifies this
      ensures Valid() && result == current
      ensures old(current).None? ==> parent == old(parent) && current.None? && call.None? && screen.None?
      ensures old(current).Some? ==>
        var t := Transition(items, old(parent), old(current).value, action);
        var n := Moved(old(current).value, t.target);
        && parent == t.parent
        && current == Some(n)
        && call == t.call
        && screen == if n != old(current).value then Some(Layout(items, parent, n)) else None
    {
      call := None;
      screen := None;
      if current.Some? {
        var cur := current.value;
        assert LinkedAt(items, cur);
        var newItem := current;
        match action {
          case Prev =>
            newItem := items[cur].prev;
            if newItem.Some? {
              parent := parent[newItem.value := parent[cur]];
            }
          case Next =>
            newItem := items[cur].next;
            if newItem.Some? {
              parent := parent[newItem.value := parent[cur]];
            }
          case Enter =>
            newItem := items[cur].child;
            if newItem.Some? {
              parent := parent[newItem.value := Some(cur)];
            }
            call := Invoke(items[cur].enterHandler);
          case Exit =>
            newItem := parent[cur];
            call := Invoke(items[cur].exitHandler);
        }
        if newItem.Some? && newItem != current {
          screen := Draw(newItem);
        }
      }
      result := current;
    }
  }
}
