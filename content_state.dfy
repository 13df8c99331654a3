/**
 * The editor object the two controllers extend (`ContentState`), with the
 * fields they read and write. Its methods run the steps of the source on
 * those fields and are proved equal to the functions of `MoveLineCtrl` and
 * `WrapSelectionCtrl`, whose properties are proved there.
 */
module Muya {
  import opened Wrappers
  import opened ContentModel
  import opened MoveLineCtrl
  import opened WrapSelectionCtrl

  /** The calls out of the editor a successful operation makes, in order. */
  datatype Notice = PartialRender | DispatchSelectionChange | DispatchChange

  /** Two tables with the same keys, parents and types: every upward walk
      takes the same path in both. */
  ghost predicate SameTree(s: Store, t: Store) {
    && s.Keys == t.Keys
    && forall k :: k in s ==> t[k].parent == s[k].parent && t[k].blockType == s[k].blockType
  }

  lemma SameTreeRanked(s: Store, t: Store, rank: map<Key, nat>)
    requires Ranked(s, rank) && SameTree(s, t)
    ensures Ranked(t, rank)
  {
    forall k | k in t && HasParentIn(t, k)
      ensures rank[t[k].parent.value] < rank[k]
    {
      assert s[k].parent == t[k].parent;
    }
  }

  /** The link rewrites touch only sibling links. */
  lemma LinkSwapSameTree(s: Store, a: Key, b: Key)
    requires a in s && b in s
    ensures SameTree(s, LinkSwap(s, a, b))
  {
    var aPrev := Present(s, s[a].preSibling);
    var bNext := Present(s, s[b].nextSibling);
    var s1 := SetPre(s, a, Some(s[b].key));
    var s2 := SetNext(s1, a, s1[b].nextSibling);
    var s3 := SetPre(s2, b, KeyOf(s, aPrev));
    var s4 := SetNext(s3, b, Some(s[a].key));
    SetPreSameTree(s, a, Some(s[b].key));
    SetNextSameTree(s1, a, s1[b].nextSibling);
    SetPreSameTree(s2, b, KeyOf(s, aPrev));
    SetNextSameTree(s3, b, Some(s[a].key));
    SameTreeTrans(s, s1, s2);
    SameTreeTrans(s, s2, s3);
    SameTreeTrans(s, s3, s4);
    var s5 := if aPrev.Some? then SetNext(s4, aPrev.value, Some(s[b].key)) else s4;
    if aPrev.Some? {
      SetNextSameTree(s4, aPrev.value, Some(s[b].key));
      SameTreeTrans(s, s4, s5);
    }
    if bNext.Some? {
      SetPreSameTree(s5, bNext.value, Some(s[a].key));
      SameTreeTrans(s, s5, SetPre(s5, bNext.value, Some(s[a].key)));
    }
  }

  lemma SetPreSameTree(s: Store, k: Key, v: Option<Key>)
    requires k in s
    ensures SameTree(s, SetPre(s, k, v))
  {
  }

  lemma SetNextSameTree(s: Store, k: Key, v: Option<Key>)
    requires k in s
    ensures SameTree(s, SetNext(s, k, v))
  {
  }

  lemma SameTreeTrans(s: Store, t: Store, u: Store)
    requires SameTree(s, t) && SameTree(t, u)
    ensures SameTree(s, u)
  {
  }

  /** Writing back the exchanged sibling sequence changes no parent and
      no type. */
  lemma SwapArraySameTree(d: Doc, k1: Key, k2: Key)
    requires k1 in d.store && k1 in SiblingsOf(d, k1) && k2 in SiblingsOf(d, k1)
    ensures SameTree(d.store, SwapArray(d, k1, k2).store)
  {
    var e := SwapArray(d, k1, k2);
    forall q | q in d.store
      ensures q in e.store && e.store[q].parent == d.store[q].parent && e.store[q].blockType == d.store[q].blockType
    {
      WithSiblingsAt(d, k1, Exchanged(SiblingsOf(d, k1), k1, k2), q);
    }
  }

  /** `swapBlocks` changes sequences and links only. */
  lemma SwapSameTree(d: Doc, b1: Option<Key>, b2: Option<Key>)
    requires b1.Some? ==> b1.value in d.store
    requires b2.Some? ==> b2.value in d.store
    ensures SameTree(d.store, Swap(d, b1, b2).0.store)
  {
    if Swap(d, b1, b2).1 {
      var k1, k2 := b1.value, b2.value;
      var e := SwapArray(d, k1, k2);
      SwapArraySameTree(d, k1, k2);
      LinkSwapSameTree(e.store, k1, k2);
      LinkSwapSameTree(e.store, k2, k1);
      SameTreeTrans(d.store, e.store, LinkSwap(e.store, k1, k2));
      SameTreeTrans(d.store, e.store, LinkSwap(e.store, k2, k1));
    }
  }

  class ContentState {
    var store: Store
    var blocks: seq<Key>
    var cursor: Cursor
    var options: MuyaOptions
    /** The renders and events dispatched so far. */
    var notices: seq<Notice>
    /** A witness that the parent chain is acyclic. */
    ghost var rank: map<Key, nat>

    ghost predicate Valid()
      reads this
    {
      Ranked(store, rank)
    }

    /** The block table and the top-level sequence as a value. */
    function Document(): (d: Doc)
      reads this
      ensures d.store == store && d.blocks == blocks
    {
      Doc(store, blocks)
    }

    constructor (store: Store, blocks: seq<Key>, cursor: Cursor, options: MuyaOptions, ghost rank: map<Key, nat>)
      requires Ranked(store, rank)
      ensures Valid()
      ensures this.store == store && this.blocks == blocks && this.cursor == cursor
      ensures this.options == options && this.rank == rank && this.notices == []
    {
      this.store := store;
      this.blocks := blocks;
      this.cursor := cursor;
      this.options := options;
      this.rank := rank;
      this.notices := [];
    }

    // -------------------------------------------------------------------
    // moveLineCtrl
    // -------------------------------------------------------------------

    /** `getMovableBlock()`: the walk up from the cursor's start block. */
    method GetMovableBlock() returns (r: Option<Key>)
      requires Valid()
      ensures r == MovableBlock(store, rank, cursor)
    {
      if cursor.start.None? {
        return None;
      }
      var origin := cursor.start.value.key;
      if origin !in store {
        return None;
      }
      var m := origin;
      while true
        invariant m in store
        invariant Walk(store, rank, m, origin) == Walk(store, rank, origin, origin)
        decreases rank[m]
      {
        var parent := GetParent(store, store[m]);
        if store[m].blockType == "li" {
          return Some(m);
        }
        if store[m].blockType in ContentTypes {
          if parent.None? || parent.value.blockType in ContainerTypes {
            if parent.Some? && parent.value.blockType in ListTypes {
              var li := Closest(store, rank, m, "li");
              if li.Some? {
                return li;
              }
            }
            return Some(m);
          }
        }
        if parent.Some? {
          m := store[m].parent.value;
        } else {
          break;
        }
      }
      return Some(FindOutMostBlock(store, rank, origin));
    }

    /** The four link rewrites and the two neighbour rewrites for `a`
        immediately before `b`, with the neighbours looked up beforehand. */
    method LinkPair(a: Key, b: Key, aPrev: Option<Key>, bNext: Option<Key>)
      requires a in store && b in store
      requires aPrev == Present(store, store[a].preSibling)
      requires bNext == Present(store, store[b].nextSibling)
      modifies this`store
      ensures store == LinkSwap(old(store), a, b)
      ensures blocks == old(blocks) && cursor == old(cursor) && options == old(options)
      ensures notices == old(notices) && rank == old(rank)
    {
      var st := store;
      var aKey, bKey := st[a].key, st[b].key;
      var aPrevKey := if aPrev.Some? then Some(st[aPrev.value].key) else None;
      st := st[a := st[a].(preSibling := Some(bKey))];
      st := st[a := st[a].(nextSibling := st[b].nextSibling)];
      st := st[b := st[b].(preSibling := aPrevKey)];
      st := st[b := st[b].(nextSibling := Some(aKey))];
      if aPrev.Some? {
        st := st[aPrev.value := st[aPrev.value].(nextSibling := Some(bKey))];
      }
      if bNext.Some? {
        st := st[bNext.value := st[bNext.value].(preSibling := Some(aKey))];
      }
      store := st;
    }

    /** `swapBlocks(block1, block2)`: exchange the two blocks in their sibling
        sequence, then rewrite the links when one is the other's
        `nextSibling`. */
    method SwapBlocks(b1: Option<Key>, b2: Option<Key>) returns (ok: bool)
      requires Valid()
      requires b1.Some? ==> b1.value in store
      requires b2.Some? ==> b2.value in store
      modifies this`store, this`blocks
      ensures Valid()
      ensures (Document(), ok) == Swap(old(Document()), b1, b2)
      ensures cursor == old(cursor) && options == old(options) && notices == old(notices) && rank == old(rank)
    {
      ghost var d := Document();
      if b1.None? || b2.None? {
        return false;
      }
      var k1, k2 := b1.value, b2.value;
      var parent := GetParent(store, store[k1]);
      var siblings := if parent.Some? then parent.value.children else blocks;
      assert siblings == SiblingsOf(d, k1);
      var index1 := FindIndex(siblings, k1);
      var index2 := FindIndex(siblings, k2);
      if index1 == -1 || index2 == -1 {
        return false;
      }
      siblings := siblings[index1 := k2];
      siblings := siblings[index2 := k1];
      if parent.Some? {
        var p := store[k1].parent.value;
        store := store[p := store[p].(children := siblings)];
      } else {
        blocks := siblings;
      }
      assert Document() == SwapArray(d, k1, k2);
      var block1Prev := Present(store, store[k1].preSibling);
      var block1Next := Present(store, store[k1].nextSibling);
      var block2Prev := Present(store, store[k2].preSibling);
      var block2Next := Present(store, store[k2].nextSibling);
      if store[k1].nextSibling == Some(store[k2].key) {
        LinkPair(k1, k2, block1Prev, block2Next);
      } else if store[k2].nextSibling == Some(store[k1].key) {
        LinkPair(k2, k1, block2Prev, block1Next);
      }
      SwapSameTree(d, b1, b2);
      SameTreeRanked(d.store, store, rank);
      return true;
    }

    /** The shared body of `moveLineUp` and `moveLineDown`. */
    method MoveLine(dir: Direction) returns (ok: bool)
      requires Valid()
      modifies this`store, this`blocks, this`notices
      ensures Valid()
      ensures (Document(), ok) == Move(old(Document()), old(rank), old(cursor), dir)
      ensures notices == old(notices) + (if ok then [PartialRender, DispatchChange] else [])
      ensures cursor == old(cursor) && options == old(options) && rank == old(rank)
      ensures old(WellLinked(Document())) ==> WellLinked(Document())
    {
      MoveKeepsWellLinked(Document(), rank, cursor, dir);
      var movable := GetMovableBlock();
      if movable.None? {
        return false;
      }
      var m := movable.value;
      var link := if dir == Up then store[m].preSibling else store[m].nextSibling;
      var neighbour := GetBlock(store, link);
      if neighbour.None? {
        return false;
      }
      if neighbour.value.editable == Some(false) {
        return false;
      }
      var q := link.value;
      if dir == Up {
        ok := SwapBlocks(Some(q), Some(m));
      } else {
        ok := SwapBlocks(Some(m), Some(q));
      }
      if !ok {
        return false;
      }
      notices := notices + [PartialRender, DispatchChange];
    }

    /** `moveLineUp()`. */
    method MoveLineUp() returns (ok: bool)
      requires Valid()
      modifies this`store, this`blocks, this`notices
      ensures Valid()
      ensures (Document(), ok) == Move(old(Document()), old(rank), old(cursor), Up)
      ensures notices == old(notices) + (if ok then [PartialRender, DispatchChange] else [])
      ensures cursor == old(cursor) && options == old(options) && rank == old(rank)
      ensures old(WellLinked(Document())) ==> WellLinked(Document())
    {
      ok := MoveLine(Up);
    }

    /** `moveLineDown()`. */
    method MoveLineDown() returns (ok: bool)
      requires Valid()
      modifies this`store, this`blocks, this`notices
      ensures Valid()
      ensures (Document(), ok) == Move(old(Document()), old(rank), old(cursor), Down)
      ensures notices == old(notices) + (if ok then [PartialRender, DispatchChange] else [])
      ensures cursor == old(cursor) && options == old(options) && rank == old(rank)
      ensures old(WellLinked(Document())) ==> WellLinked(Document())
    {
      ok := MoveLine(Down);
    }

    /** `handleMoveLineKeydown(event)`: Alt with ArrowUp or ArrowDown, and no
        other modifier, suppresses the key's default action and moves the
        block; any other key changes nothing. */
    method HandleMoveLineKeydown(ev: KeyEvent) returns (handled: bool, ev': KeyEvent)
      requires Valid()
      modifies this`store, this`blocks, this`notices
      ensures Valid()
      ensures MoveLineKey(ev).None? ==>
        !handled && ev' == ev && Document() == old(Document()) && notices == old(notices)
      ensures MoveLineKey(ev).Some? ==>
        && ev' == ev.(defaultPrevented := true)
        && (Document(), handled) == Move(old(Document()), old(rank), old(cursor), MoveLineKey(ev).value)
        && notices == old(notices) + (if handled then [PartialRender, DispatchChange] else [])
      ensures cursor == old(cursor) && options == old(options) && rank == old(rank)
      ensures old(WellLinked(Document())) ==> WellLinked(Document())
    {
      ev' := ev;
      if !ev.altKey {
        return false, ev';
      }
      if ev.ctrlKey || ev.metaKey || ev.shiftKey {
        return false, ev';
      }
      if ev.key == "ArrowUp" {
        ev' := ev'.(defaultPrevented := true);
        handled := MoveLineUp();
        return;
      }
      if ev.key == "ArrowDown" {
        ev' := ev'.(defaultPrevented := true);
        handled := MoveLineDown();
        return;
      }
      return false, ev';
    }

    // -------------------------------------------------------------------
    // wrapSelectionCtrl
    // -------------------------------------------------------------------

    /** `wrapSelection(openChar)`. */
    method WrapSelection(open: string) returns (ok: bool)
      requires Valid()
      modifies this`store, this`cursor, this`notices
      ensures Valid()
      ensures (store, cursor, ok) == WrapSelectionCtrl.WrapSelection(old(store), old(cursor), open)
      ensures notices == old(notices) + (if ok then [PartialRender, DispatchSelectionChange, DispatchChange] else [])
      ensures blocks == old(blocks) && options == old(options) && rank == old(rank)
    {
      var closeChar := CloseOf(open);
      if closeChar.None? {
        return false;
      }
      var close := [closeChar.value];
      if cursor.start.None? || cursor.end.None? {
        return false;
      }
      var startKey, startOffset := cursor.start.value.key, cursor.start.value.offset;
      var endKey, endOffset := cursor.end.value.key, cursor.end.value.offset;
      if startKey != endKey {
        return false;
      }
      if startOffset > endOffset {
        startOffset, endOffset := endOffset, startOffset;
      }
      var block := GetBlock(store, Some(startKey));
      if block.None? {
        return false;
      }
      var text := block.value.text;
      var selectedText := Substring(text, startOffset, endOffset);
      var newText := Substring(text, 0, startOffset) + open + selectedText + close + Substring(text, endOffset, |text|);
      var newOffset := endOffset + |open| + |close|;
      assert newText == WrappedText(text, startOffset, endOffset, open, close);
      assert WrapSelectionCtrl.WrapSelection(store, cursor, open)
        == (store[startKey := block.value.(text := newText)], Caret(startKey, newOffset), true);
      ghost var s := store;
      store := store[startKey := store[startKey].(text := newText)];
      SameTreeRanked(s, store, rank);
      cursor := Caret(startKey, newOffset);
      notices := notices + [PartialRender, DispatchSelectionChange, DispatchChange];
      return true;
    }

    /** `handleWrapSelectionKeydown(event)`. */
    method HandleWrapSelectionKeydown(ev: KeyEvent) returns (handled: bool, ev': KeyEvent)
      requires Valid()
      modifies this`store, this`cursor, this`notices
      ensures Valid()
      ensures (store, cursor, ev', handled) == HandleWrapKeydown(ev, options, old(store), old(cursor))
      ensures notices == old(notices) + (if handled then [PartialRender, DispatchSelectionChange, DispatchChange] else [])
      ensures blocks == old(blocks) && options == old(options) && rank == old(rank)
    {
      ev' := ev;
      if ev.ctrlKey || ev.metaKey || ev.altKey {
        return false, ev';
      }
      if options.surroundSelection == Some(false) {
        return false, ev';
      }
      var ch := ev.key;
      if !ShouldWrapSelection(store, cursor, ch) {
        return false, ev';
      }
      var isBracket := IsBracket(ch);
      var isQuote := IsQuote(ch);
      var isMarkdownSyntax := IsMarkdownSyntax(ch);
      if isBracket && !Truthy(options.autoPairBracket) {
        return false, ev';
      }
      if isQuote && !Truthy(options.autoPairQuote) {
        return false, ev';
      }
      if isMarkdownSyntax && !Truthy(options.autoPairMarkdownSyntax) {
        return false, ev';
      }
      ev' := ev'.(defaultPrevented := true);
      handled := WrapSelection(ch);
    }
  }
}
