/** The children of a cJSON array or object: a list linked both ways, in which the first item's `prev` is the last item. */
module SiblingList {
  import opened Words

  class Item {
    var next: Item?
    var prev: Item?
    var child: Item?

    constructor ()
      ensures next == null && prev == null && child == null
    {
      next, prev, child := null, null, null;
    }
  }

  /** The items of parent are s, in this order. */
  ghost predicate Lists(parent: Item, s: seq<Item>)
    reads parent`child, s`next, s`prev
  {
    && parent !in s
    && (forall i, j :: 0 <= i < j < |s| ==> s[i] != s[j])
    && parent.child == Nth(s, 0)
    && (forall i {:trigger s[i].next} :: 0 <= i < |s| ==> s[i].next == Nth(s, i + 1))
    && (forall i {:trigger s[i].prev} :: 0 <= i < |s| ==> s[i].prev == if i == 0 then s[|s| - 1] else s[i - 1])
  }

  /** The item at index i, or null past the end. */
  function Nth(s: seq<Item>, i: nat): Item? {
    if i < |s| then s[i] else null
  }

  function Just(p: Item?): set<Item> {
    if p == null then {} else {p}
  }

  /** An item that stands in no list yet. */
  ghost predicate Detached(parent: Item, s: seq<Item>, item: Item)
    reads item`next
  {
    item != parent && item !in s && item.next == null
  }

  /** The cast of a size to int. */
  function AsInt(size: nat): (r: i32)
    ensures r == size <==> size <= 0x7FFF_FFFF
  {
    var low := size % 0x1_0000_0000;
    if low >= 0x8000_0000 then low - 0x1_0000_0000 else low
  }

  /** cJSON_GetArraySize; the count is exact up to INT_MAX items. */
  method Size(parent: Item?, ghost s: seq<Item>) returns (size: i32)
    requires parent != null ==> Lists(parent, s)
    ensures size == AsInt(if parent == null then 0 else |s|)
    ensures parent != null ==> (size == |s| <==> |s| <= 0x7FFF_FFFF)
  {
    if parent == null { return 0; }
    var child := parent.child;
    var count := 0;
    while child != null
      invariant count <= |s| && child == Nth(s, count)
      decreases |s| - count
    {
      count := count + 1;
      child := child.next;
    }
    size := AsInt(count);
  }

  /** get_array_item. */
  method GetItem(parent: Item?, index: nat, ghost s: seq<Item>) returns (item: Item?)
    requires parent != null ==> Lists(parent, s)
    ensures item == if parent == null then null else Nth(s, index)
  {
    if parent == null { return null; }
    item := parent.child;
    var left := index;
    while item != null && left > 0
      invariant 0 <= left <= index && item == Nth(s, index - left)
      invariant index - left > |s| ==> item == null
      decreases left
    {
      left := left - 1;
      item := item.next;
    }
  }

  /** add_item_to_array. */
  method Add(parent: Item?, item: Item?, ghost s: seq<Item>) returns (ok: bool)
    requires parent != null ==> Lists(parent, s)
    requires parent != null && item != null && item != parent ==> Detached(parent, s, item)
    modifies Just(parent)`child, Just(item)`next, Just(item)`prev, s`next, s`prev
    ensures ok <==> parent != null && item != null && parent != item
    ensures ok ==> Lists(parent, s + [item])
    ensures !ok && parent != null ==> Lists(parent, s)
  {
    if item == null || parent == null || parent == item { return false; }
    var child := parent.child;
    if child == null {
      parent.child := item;
      item.prev := item;
      item.next := null;
    } else {
      var last := child.prev;
      if last != null {
        assert child == s[0] && last == s[|s| - 1];
        last.next := item;
        item.prev := last;
        parent.child.prev := item;
      }
    }
    ok := true;
  }

  /** cJSON_DetachItemViaPointer. */
  method Detach(parent: Item?, item: Item?, ghost s: seq<Item>, ghost k: nat) returns (detached: Item?)
    requires parent != null ==> Lists(parent, s)
    requires parent != null && item != null ==> k < |s| && item == s[k]
    modifies Just(parent)`child, s`next, s`prev
    ensures detached == if parent == null then null else item
    ensures detached != null ==> Lists(parent, s[..k] + s[k + 1..]) && item.next == null && item.prev == null
    ensures detached == null && parent != null ==> Lists(parent, s)
  {
    if parent == null || item == null || (item != parent.child && item.prev == null) { return null; }
    if item != parent.child {
      item.prev.next := item.next;
    }
    if item.next != null {
      item.next.prev := item.prev;
    }
    if item == parent.child {
      parent.child := item.next;
    } else if item.next == null {
      parent.child.prev := item.prev;
    }
    item.prev := null;
    item.next := null;
    detached := item;
    Removed(parent, s, k);
  }

  lemma Removed(parent: Item, s: seq<Item>, k: nat)
    requires k < |s| && parent !in s
    requires forall i, j :: 0 <= i < j < |s| ==> s[i] != s[j]
    requires parent.child == Nth(s, if k == 0 then 1 else 0)
    requires forall i {:trigger s[i].next} :: 0 <= i < |s| && i != k ==> s[i].next == Nth(s, if i + 1 == k then i + 2 else i + 1)
    requires forall i {:trigger s[i].prev} :: 0 < i < |s| && i != k && i != k + 1 ==>
      s[i].prev == s[i - 1]
    requires k + 1 < |s| ==> s[k + 1].prev == if k == 0 then s[|s| - 1] else s[k - 1]
    requires k > 0 ==> s[0].prev == if k == |s| - 1 then s[k - 1] else s[|s| - 1]
    ensures Lists(parent, s[..k] + s[k + 1..])
  {
    var t := s[..k] + s[k + 1..];
    assert forall i :: 0 <= i < |t| ==> t[i] == if i < k then s[i] else s[i + 1];
  }

  /** cJSON_InsertItemInArray. Unlike appending, inserting in front of an item does not check that the new item is not the
      parent itself: the call then succeeds and leaves no list at all. */
  method Insert(parent: Item?, which: int, item: Item?, ghost s: seq<Item>) returns (ok: bool)
    requires parent != null ==> Lists(parent, s)
    requires parent != null && item != null && item != parent ==> Detached(parent, s, item)
    modifies Just(parent)`child, Just(item)`next, Just(item)`prev, s`next, s`prev
    ensures ok <==> which >= 0 && parent != null && item != null && (parent != item || which < |s|)
    ensures ok && parent != item ==> Lists(parent, if which < |s| then s[..which] + [item] + s[which..] else s + [item])
    ensures ok && parent == item ==> forall t: seq<Item> :: !Lists(parent, t)
    ensures !ok && parent != null ==> Lists(parent, s)
  {
    if which < 0 || item == null { return false; }
    var after := GetItem(parent, which, s);
    if after == null {
      ok := Add(parent, item, s);
      return;
    }
    if after != parent.child && after.prev == null { return false; }
    assert which < |s| && after == s[which];
    item.next := after;
    item.prev := after.prev;
    after.prev := item;
    if after == parent.child {
      parent.child := item;
    } else {
      item.prev.next := item;
    }
    ok := true;
    if item == parent { LinksBack(parent, s, which); } else { Inserted(parent, item, s, which); }
  }

  /** The chain of next links runs through the first k items back to the parent. */
  ghost predicate Returns(parent: Item, s: seq<Item>, k: nat)
    requires k <= |s|
    reads parent`child, s`next
  {
    && parent.child == (if k == 0 then parent else s[0])
    && forall i {:trigger s[i].next} :: 0 <= i < k ==> s[i].next == if i + 1 == k then parent else s[i + 1]
  }

  /** Then the parent has no list of items. */
  lemma LinksBack(parent: Item, s: seq<Item>, k: nat)
    requires k <= |s| && Returns(parent, s, k)
    ensures forall t: seq<Item> :: !Lists(parent, t)
  {
    forall t: seq<Item> ensures !Lists(parent, t) {
      if Lists(parent, t) {
        SameItems(parent, s, t, k, k);
        assert false;
      }
    }
  }

  /** Any list would start with the same items. */
  lemma {:induction false} SameItems(parent: Item, s: seq<Item>, t: seq<Item>, k: nat, i: nat)
    requires i <= k <= |s| && Returns(parent, s, k) && Lists(parent, t)
    ensures i < |t| && t[i] == if i == k then parent else s[i]
  {
    if i > 0 {
      SameItems(parent, s, t, k, i - 1);
      assert t[i - 1].next == Nth(t, i) && s[i - 1].next != null;
    }
  }

  lemma Inserted(parent: Item, item: Item, s: seq<Item>, k: nat)
    requires k < |s| && item != parent && item !in s && parent !in s
    requires forall i, j :: 0 <= i < j < |s| ==> s[i] != s[j]
    requires parent.child == (if k == 0 then item else s[0])
    requires item.next == s[k] && item.prev == (if k == 0 then s[|s| - 1] else s[k - 1])
    requires forall i {:trigger s[i].next} :: 0 <= i < |s| ==> s[i].next == if i + 1 == k then item else Nth(s, i + 1)
    requires forall i {:trigger s[i].prev} :: 0 <= i < |s| ==>
      s[i].prev == if i == k then item else if i == 0 then s[|s| - 1] else s[i - 1]
    ensures Lists(parent, s[..k] + [item] + s[k..])
  {
    var t := s[..k] + [item] + s[k..];
    assert forall i :: 0 <= i < |t| ==> t[i] == if i < k then s[i] else if i == k then item else s[i - 1];
  }

  /** cJSON_ReplaceItemViaPointer; freeing the replaced item is not modelled. Here too the parent is not refused. */
  method Replace(parent: Item?, item: Item?, replacement: Item?, ghost s: seq<Item>, ghost k: nat) returns (ok: bool)
    requires parent != null ==> Lists(parent, s)
    requires parent != null && item != null ==> k < |s| && item == s[k]
    requires parent != null && replacement != null && replacement != item ==> replacement !in s
    modifies Just(parent)`child, Just(replacement)`next, Just(replacement)`prev, s`next, s`prev
    ensures ok <==> parent != null && item != null && replacement != null
    ensures ok && replacement != parent ==> Lists(parent, s[k := replacement])
    ensures ok && replacement == parent ==> forall t: seq<Item> :: !Lists(parent, t)
    ensures ok && replacement != item ==> item.next == null && item.prev == null
    ensures !ok && parent != null ==> Lists(parent, s)
  {
    if parent == null || parent.child == null || replacement == null || item == null { return false; }
    if replacement == item { return true; }
    replacement.next := item.next;
    replacement.prev := item.prev;
    if replacement.next != null {
      replacement.next.prev := replacement;
    }
    if parent.child == item {
      if parent.child.prev == parent.child {
        replacement.prev := replacement;
      }
      parent.child := replacement;
    } else {
      if replacement.prev != null {
        replacement.prev.next := replacement;
      }
      if replacement.next == null {
        parent.child.prev := replacement;
      }
    }
    item.next := null;
    item.prev := null;
    ok := true;
    if replacement == parent { LinksBack(parent, s, k); } else { Replaced(parent, replacement, s, k); }
  }

  lemma Replaced(parent: Item, item: Item, s: seq<Item>, k: nat)
    requires k < |s| && item != parent && item !in s && parent !in s
    requires forall i, j :: 0 <= i < j < |s| ==> s[i] != s[j]
    requires parent.child == (if k == 0 then item else s[0])
    requires item.next == Nth(s, k + 1) && item.prev == if |s| == 1 then item else s[if k == 0 then |s| - 1 else k - 1]
    requires forall i {:trigger s[i].next} :: 0 <= i < |s| && i != k ==> s[i].next == if i + 1 == k then item else Nth(s, i + 1)
    requires forall i {:trigger s[i].prev} :: 0 <= i < |s| && i != k ==>
      var j := if i == 0 then |s| - 1 else i - 1;
      s[i].prev == if j == k then item else s[j]
    ensures Lists(parent, s[k := item])
  {
    var t := s[k := item];
    assert forall i :: 0 <= i < |t| ==> t[i] == if i == k then item else s[i];
  }

  /** How parse_array and parse_object link the items they have made, one after another. */
  method LinkParsed(parent: Item, items: seq<Item>)
    requires parent !in items && forall i, j :: 0 <= i < j < |items| ==> items[i] != items[j]
    requires forall i {:trigger items[i].next} :: 0 <= i < |items| ==> items[i].next == null
    modifies parent`child, items`next, items`prev
    ensures Lists(parent, items)
  {
    var head: Item?, current: Item? := null, null;
    for n := 0 to |items|
      invariant head == (if n == 0 then null else items[0]) && current == (if n == 0 then null else items[n - 1])
      invariant forall i {:trigger items[i].next} :: 0 <= i < |items| ==> items[i].next == if i + 1 < n then items[i + 1] else null
      invariant forall i {:trigger items[i].prev} :: 0 < i < n ==> items[i].prev == items[i - 1]
    {
      var item := items[n];
      if head == null {
        current, head := item, item;
      } else {
        current.next := item;
        item.prev := current;
        current := item;
      }
    }
    if head != null { head.prev := current; }
    parent.child := head;
  }
}
