/**
 * The move-line controller (src/muya/lib/contentState/moveLineCtrl.js) as
 * functions on documents: which block moves, how two siblings are swapped
 * in their sequence and in the link chain, and the guards of the two move
 * commands. The editor class in content_state.dfy runs the same steps on
 * its fields and is proved against these functions.
 */
module MoveLineCtrl {
  import opened Wrappers
  import opened ContentModel

  /** Block types that move as a unit when their parent allows it. */
  const ContentTypes: set<string> :=
    {"p", "h1", "h2", "h3", "h4", "h5", "h6", "hr", "blockquote", "pre", "figure"}

  /** Parent types under which a content block stops the walk. */
  const ContainerTypes: set<string> := {"ul", "ol", "blockquote"}

  const ListTypes: set<string> := {"ul", "ol"}

  // ---------------------------------------------------------------------
  // getMovableBlock
  // ---------------------------------------------------------------------

  /** The decision taken at block `k` of the upward walk: `Some` of the block
      to move, or `None` to go on to the parent. */
  function StopAt(s: Store, ghost rank: map<Key, nat>, k: Key): (r: Option<Key>)
    requires Ranked(s, rank) && k in s
    ensures r.Some? <==>
      s[k].blockType == "li" ||
      (s[k].blockType in ContentTypes &&
       (!HasParentIn(s, k) || s[s[k].parent.value].blockType in ContainerTypes))
    ensures r.Some? ==> r.value in Ancestors(s, rank, k)
    ensures r.Some? && r.value != k ==>
      s[r.value].blockType == "li" && s[k].blockType != "li" && HasParentIn(s, k) &&
      s[s[k].parent.value].blockType in ListTypes
    ensures s[k].blockType in ContentTypes && HasParentIn(s, k) && s[s[k].parent.value].blockType in ListTypes ==>
      r == (if Closest(s, rank, k, "li").Some? then Closest(s, rank, k, "li") else Some(k))
  {
    var parent := GetParent(s, s[k]);
    if s[k].blockType == "li" then Some(k)
    else if s[k].blockType in ContentTypes && (parent.None? || parent.value.blockType in ContainerTypes) then
      if parent.Some? && parent.value.blockType in ListTypes then
        match Closest(s, rank, k, "li")
        case Some(li) => Some(li)
        case None => Some(k)
      else Some(k)
    else None
  }

  /** The walk from `k` upward; `origin` is the block it started from, whose
      outmost ancestor is the fallback when no block stops the walk. */
  function Walk(s: Store, ghost rank: map<Key, nat>, k: Key, origin: Key): (r: Key)
    requires Ranked(s, rank) && k in s && origin in s
    ensures r in s
    decreases rank[k]
  {
    match StopAt(s, rank, k)
    case Some(r) => r
    case None =>
      if HasParentIn(s, k) then Walk(s, rank, s[k].parent.value, origin)
      else FindOutMostBlock(s, rank, origin)
  }

  /** The block `getMovableBlock` returns for a cursor. */
  function MovableBlock(s: Store, ghost rank: map<Key, nat>, cursor: Cursor): (r: Option<Key>)
    requires Ranked(s, rank)
    ensures r.None? <==> cursor.start.None? || cursor.start.value.key !in s
    ensures r.Some? ==> r.value in s
  {
    match cursor.start
    case None => None
    case Some(p) => if p.key in s then Some(Walk(s, rank, p.key, p.key)) else None
  }

  /** The position of the first block of `chain` that stops the walk, or
      `|chain|` when none does. */
  ghost function FirstStop(s: Store, rank: map<Key, nat>, chain: seq<Key>): (i: nat)
    requires Ranked(s, rank) && forall j :: 0 <= j < |chain| ==> chain[j] in s
    ensures i <= |chain|
    ensures forall j :: 0 <= j < i ==> StopAt(s, rank, chain[j]).None?
    ensures i < |chain| ==> StopAt(s, rank, chain[i]).Some?
  {
    if |chain| == 0 then 0
    else if StopAt(s, rank, chain[0]).Some? then 0
    else 1 + FirstStop(s, rank, chain[1..])
  }

  /** The walk returns the decision of the first block on the chain of
      parents that stops it, or the outmost block when none does. */
  lemma {:induction false} WalkFirstStop(s: Store, rank: map<Key, nat>, k: Key, origin: Key)
    requires Ranked(s, rank) && k in s && origin in s
    ensures var chain := Ancestors(s, rank, k);
      var i := FirstStop(s, rank, chain);
      Walk(s, rank, k, origin) == if i < |chain| then StopAt(s, rank, chain[i]).value else FindOutMostBlock(s, rank, origin)
    decreases rank[k]
  {
    var chain := Ancestors(s, rank, k);
    if StopAt(s, rank, k).Some? {
      assert FirstStop(s, rank, chain) == 0;
    } else if HasParentIn(s, k) {
      var p := s[k].parent.value;
      WalkFirstStop(s, rank, p, origin);
      assert chain[1..] == Ancestors(s, rank, p);
      assert FirstStop(s, rank, chain) == 1 + FirstStop(s, rank, chain[1..]);
    } else {
      assert chain == [k];
      assert FirstStop(s, rank, chain) == 1 + FirstStop(s, rank, chain[1..]);
    }
  }

  /** The movable block is the start block or one of its ancestors, and it is
      a list item, a content block, or a block with no parent. */
  lemma MovableIsAncestor(s: Store, rank: map<Key, nat>, cursor: Cursor)
    requires Ranked(s, rank) && MovableBlock(s, rank, cursor).Some?
    ensures var m := MovableBlock(s, rank, cursor).value;
      && m in Ancestors(s, rank, cursor.start.value.key)
      && (s[m].blockType == "li" || s[m].blockType in ContentTypes || !HasParentIn(s, m))
  {
    var k := cursor.start.value.key;
    var chain := Ancestors(s, rank, k);
    WalkFirstStop(s, rank, k, k);
    var m := Walk(s, rank, k, k);
    var i := FirstStop(s, rank, chain);
    if i < |chain| {
      AncestorsSuffix(s, rank, k, i);
      assert m in Ancestors(s, rank, chain[i]);
      assert forall x :: x in chain[i..] ==> x in chain;
    }
  }

  // ---------------------------------------------------------------------
  // swapBlocks
  // ---------------------------------------------------------------------

  /** Write `preSibling` of block `k`. */
  function SetPre(s: Store, k: Key, v: Option<Key>): (r: Store)
    requires k in s
    ensures r.Keys == s.Keys && r[k] == s[k].(preSibling := v)
    ensures forall j :: j in s && j != k ==> r[j] == s[j]
  {
    s[k := s[k].(preSibling := v)]
  }

  /** Write `nextSibling` of block `k`. */
  function SetNext(s: Store, k: Key, v: Option<Key>): (r: Store)
    requires k in s
    ensures r.Keys == s.Keys && r[k] == s[k].(nextSibling := v)
    ensures forall j :: j in s && j != k ==> r[j] == s[j]
  {
    s[k := s[k].(nextSibling := v)]
  }

  /** The key under which `getBlock` finds a block, or `None`. */
  function Present(s: Store, o: Option<Key>): (r: Option<Key>)
    ensures r.Some? <==> o.Some? && o.value in s
    ensures r.Some? ==> r == o
  {
    if o.Some? && o.value in s then o else None
  }

  /** `found ? found.key : null`. */
  function KeyOf(s: Store, o: Option<Key>): Option<Key>
    requires o.Some? ==> o.value in s
  {
    if o.Some? then Some(s[o.value].key) else None
  }

  /** Write a sibling sequence back to where `k`'s siblings live: its parent's
      `children`, or the top-level `blocks`. */
  function WithSiblings(d: Doc, k: Key, a: seq<Key>): (r: Doc)
    requires k in d.store
    ensures r.store.Keys == d.store.Keys
    ensures HasParentIn(d.store, k) ==> r.blocks == d.blocks
    ensures !HasParentIn(d.store, k) ==> r == d.(blocks := a)
  {
    if HasParentIn(d.store, k) then
      var p := d.store[k].parent.value;
      d.(store := d.store[p := d.store[p].(children := a)])
    else d.(blocks := a)
  }

  /** `siblings[index1] = block2; siblings[index2] = block1`. */
  function Exchanged(a: seq<Key>, x: Key, y: Key): (r: seq<Key>)
    requires x in a && y in a
    ensures |r| == |a|
  {
    a[FindIndex(a, x) := y][FindIndex(a, y) := x]
  }

  /** The two blocks exchanged in their sibling sequence, links untouched. */
  function SwapArray(d: Doc, k1: Key, k2: Key): Doc
    requires k1 in d.store && k1 in SiblingsOf(d, k1) && k2 in SiblingsOf(d, k1)
  {
    WithSiblings(d, k1, Exchanged(SiblingsOf(d, k1), k1, k2))
  }

  /** The link rewrites for `a` immediately before `b`, in source order,
      with the outer neighbours captured before the first write. */
  function LinkSwap(s: Store, a: Key, b: Key): (r: Store)
    requires a in s && b in s
    ensures r.Keys == s.Keys
  {
    var aPrev := Present(s, s[a].preSibling);
    var bNext := Present(s, s[b].nextSibling);
    var s1 := SetPre(s, a, Some(s[b].key));
    var s2 := SetNext(s1, a, s1[b].nextSibling);
    var s3 := SetPre(s2, b, KeyOf(s, aPrev));
    var s4 := SetNext(s3, b, Some(s[a].key));
    var s5 := if aPrev.Some? then SetNext(s4, aPrev.value, Some(s[b].key)) else s4;
    if bNext.Some? then SetPre(s5, bNext.value, Some(s[a].key)) else s5
  }

  /** `swapBlocks(block1, block2)`: the new document and the result. An
      absent block is `None`; a present one is the key it is stored under. */
  function Swap(d: Doc, b1: Option<Key>, b2: Option<Key>): (r: (Doc, bool))
    requires b1.Some? ==> b1.value in d.store
    requires b2.Some? ==> b2.value in d.store
    ensures !r.1 ==> r.0 == d
    ensures r.1 <==> b1.Some? && b2.Some? && b1.value in SiblingsOf(d, b1.value) && b2.value in SiblingsOf(d, b1.value)
  {
    if b1.None? || b2.None? then (d, false)
    else
      var k1, k2 := b1.value, b2.value;
      var sib := SiblingsOf(d, k1);
      if FindIndex(sib, k1) == -1 || FindIndex(sib, k2) == -1 then (d, false)
      else
        var e := SwapArray(d, k1, k2);
        var s := e.store;
        if s[k1].nextSibling == Some(s[k2].key) then (e.(store := LinkSwap(s, k1, k2)), true)
        else if s[k2].nextSibling == Some(s[k1].key) then (e.(store := LinkSwap(s, k2, k1)), true)
        else (e, true)
  }

  // ----- facts about the sequence exchange -----

  /** Exchanging two entries of a distinct sequence keeps it distinct, keeps
      its elements, moves only those two, and does not depend on the order
      the two are named in. */
  lemma ExchangedFacts(a: seq<Key>, x: Key, y: Key)
    requires Distinct(a) && x in a && y in a
    ensures var b := Exchanged(a, x, y);
      var i, j := FindIndex(a, x), FindIndex(a, y);
      && Distinct(b)
      && (forall z :: z in b <==> z in a)
      && b[i] == y && b[j] == x
      && (forall m :: 0 <= m < |a| && m != i && m != j ==> b[m] == a[m])
      && b == Exchanged(a, y, x)
  {
    var b := Exchanged(a, x, y);
    var i, j := FindIndex(a, x), FindIndex(a, y);
    forall z | z in a ensures z in b {
      var m :| 0 <= m < |a| && a[m] == z;
      if m == i { assert b[j] == z; } else if m == j { assert b[i] == z; } else { assert b[m] == z; }
    }
    if i != j {
      assert a[i := y][j := x] == a[j := x][i := y];
    }
  }

  /** Exchanging the same two blocks again restores the sequence. */
  lemma ExchangedTwice(a: seq<Key>, x: Key, y: Key)
    requires Distinct(a) && x in a && y in a
    ensures x in Exchanged(a, x, y) && y in Exchanged(a, x, y)
    ensures Exchanged(Exchanged(a, x, y), x, y) == a
  {
    ExchangedFacts(a, x, y);
    var b := Exchanged(a, x, y);
    var i, j := FindIndex(a, x), FindIndex(a, y);
    PositionNeighbours(b, i);
    PositionNeighbours(b, j);
    assert FindIndex(b, y) == i && FindIndex(b, x) == j;
  }

  /** `Listed` depends only on the key set and the parents. */
  lemma ListedTransfer(s: Store, t: Store, a: seq<Key>, b: seq<Key>, owner: Option<Key>)
    requires Listed(s, a, owner) && Distinct(b) && (forall x :: x in b ==> x in a)
    requires forall x :: x in s ==> x in t && t[x].parent == s[x].parent
    ensures Listed(t, b, owner)
  {
    forall i | 0 <= i < |b| ensures b[i] in t && t[b[i]].parent == owner {
      assert b[i] in b;
      var m :| 0 <= m < |a| && a[m] == b[i];
    }
  }

  /** Under `Structured`, a block's owner is exactly its `parent` field. */
  lemma OwnerIsParent(d: Doc, k: Key)
    requires Structured(d) && k in d.store
    ensures Owner(d, k) == d.store[k].parent
  {
  }

  /** The blocks of a sibling sequence are exactly the blocks with its owner. */
  lemma SiblingsByOwner(d: Doc, a: Key, k: Key)
    requires Structured(d) && a in d.store && k in d.store
    ensures k in SiblingsOf(d, a) <==> Owner(d, k) == Owner(d, a)
    ensures Owner(d, k) == Owner(d, a) ==> SiblingsOf(d, k) == SiblingsOf(d, a)
  {
    SiblingsListed(d, a);
    SiblingsListed(d, k);
    OwnerIsParent(d, k);
    OwnerIsParent(d, a);
  }

  /** Two records that agree on every field except possibly `children`. */
  predicate SameAsideChildren(x: Block, y: Block) {
    && x.key == y.key && x.blockType == y.blockType && x.text == y.text
    && x.functionType == y.functionType && x.parent == y.parent
    && x.preSibling == y.preSibling && x.nextSibling == y.nextSibling
    && x.editable == y.editable
  }

  /** Writing a sequence back, seen from one block `q`: its record changes at
      most in `children`, it keeps its owner, and its sibling sequence becomes
      the written one exactly when it shares the owner of `k`. */
  lemma WithSiblingsAt(d: Doc, k: Key, a: seq<Key>, q: Key)
    requires k in d.store && q in d.store
    ensures var e := WithSiblings(d, k, a);
      && q in e.store
      && SameAsideChildren(e.store[q], d.store[q])
      && Owner(e, q) == Owner(d, q)
      && (Some(q) != Owner(d, k) ==> e.store[q].children == d.store[q].children)
      && (Some(q) == Owner(d, k) ==> e.store[q].children == a)
      && SiblingsOf(e, q) == if Owner(d, q) == Owner(d, k) then a else SiblingsOf(d, q)
  {
  }

  /** Writing back a reordering of a block's sibling sequence keeps the
      document structured. */
  lemma WithSiblingsStructured(d: Doc, k: Key, a: seq<Key>)
    requires Structured(d) && k in d.store
    requires Distinct(a) && forall x :: x in a <==> x in SiblingsOf(d, k)
    ensures Structured(WithSiblings(d, k, a))
  {
    var e := WithSiblings(d, k, a);
    var o := Owner(d, k);
    forall q | q in d.store ensures q in e.store && e.store[q].parent == d.store[q].parent {
      WithSiblingsAt(d, k, a, q);
    }
    SiblingsListed(d, k);
    ListedTransfer(d.store, e.store, SiblingsOf(d, k), a, o);
    assert KeysMatch(e.store) by {
      forall q | q in e.store ensures e.store[q].key == q {
        WithSiblingsAt(d, k, a, q);
      }
    }
    assert ParentsPresent(e.store);
    assert Listed(e.store, e.blocks, None) by {
      if o.Some? {
        ListedTransfer(d.store, e.store, d.blocks, d.blocks, None);
      }
    }
    assert ChildrenListed(e.store) by {
      forall p | p in e.store ensures Listed(e.store, e.store[p].children, Some(p)) {
        WithSiblingsAt(d, k, a, p);
        assert Listed(d.store, d.store[p].children, Some(p));
        if Some(p) != o {
          ListedTransfer(d.store, e.store, d.store[p].children, d.store[p].children, Some(p));
        }
      }
    }
    assert SelfListed(e) by {
      forall q | q in e.store ensures q in SiblingsOf(e, q) {
        WithSiblingsAt(d, k, a, q);
        SiblingsListed(d, q);
        SiblingsByOwner(d, k, q);
      }
    }
  }

  /** The exchange keeps the document structured. */
  lemma SwapArrayStructured(d: Doc, k1: Key, k2: Key)
    requires Structured(d) && k1 in d.store && k1 in SiblingsOf(d, k1) && k2 in SiblingsOf(d, k1)
    ensures Structured(SwapArray(d, k1, k2))
  {
    SiblingsListed(d, k1);
    ExchangedFacts(SiblingsOf(d, k1), k1, k2);
    WithSiblingsStructured(d, k1, Exchanged(SiblingsOf(d, k1), k1, k2));
  }

  // ----- the link rewrites, block by block -----

  /** What `LinkSwap` does to each block when the four blocks involved are
      distinct and stored under their own keys. */
  lemma LinkSwapEffect(s: Store, a: Key, b: Key, k: Key)
    requires a in s && b in s && a != b && k in s && s[a].key == a && s[b].key == b
    requires var p := Present(s, s[a].preSibling); p.Some? ==> p.value != a && p.value != b && s[p.value].key == p.value
    requires var n := Present(s, s[b].nextSibling); n.Some? ==> n.value != a && n.value != b
    requires var p, n := Present(s, s[a].preSibling), Present(s, s[b].nextSibling);
      p.Some? && n.Some? ==> p.value != n.value
    ensures var r := LinkSwap(s, a, b);
      var p, n := Present(s, s[a].preSibling), Present(s, s[b].nextSibling);
      && (k == a ==> r[k] == s[k].(preSibling := Some(b), nextSibling := s[b].nextSibling))
      && (k == b ==> r[k] == s[k].(preSibling := p, nextSibling := Some(a)))
      && (p == Some(k) ==> r[k] == s[k].(nextSibling := Some(b)))
      && (n == Some(k) ==> r[k] == s[k].(preSibling := Some(a)))
      && (k != a && k != b && p != Some(k) && n != Some(k) ==> r[k] == s[k])
  {
    var p, n := Present(s, s[a].preSibling), Present(s, s[b].nextSibling);
    var s1 := SetPre(s, a, Some(b));
    var s2 := SetNext(s1, a, s[b].nextSibling);
    var s3 := SetPre(s2, b, p);
    var s4 := SetNext(s3, b, Some(a));
    var s5 := if p.Some? then SetNext(s4, p.value, Some(b)) else s4;
    assert LinkSwap(s, a, b) == if n.Some? then SetPre(s5, n.value, Some(a)) else s5;
  }

  /** Where an adjacent pair sits: `a` at `i`, `b` at `i + 1` of one
      sequence, with the outer neighbours at `i - 1` and `i + 2`. */
  ghost predicate AdjacentPair(d: Doc, a: Key, b: Key)
    requires a in d.store
  {
    && b in d.store && a != b
    && var L := SiblingsOf(d, a);
       var i := FindIndex(L, a);
       && Distinct(L) && 0 <= i && i + 1 < |L| && L[i + 1] == b
       && FindIndex(L, b) == i + 1 && SiblingsOf(d, b) == L
       && (forall x :: x in L ==> x in d.store)
       && Present(d.store, d.store[a].preSibling) == (if i == 0 then None else Some(L[i - 1]))
       && Present(d.store, d.store[b].nextSibling) == (if i + 2 == |L| then None else Some(L[i + 2]))
  }

  /** In a consistent document, a block and its successor form such a pair. */
  lemma AdjacentSetup(d: Doc, a: Key, b: Key)
    requires WellLinked(d) && a in d.store && d.store[a].nextSibling == Some(b)
    ensures AdjacentPair(d, a, b)
  {
    var L := SiblingsOf(d, a);
    var i := FindIndex(L, a);
    assert Listed(d.store, L, Owner(d, a)) && 0 <= i by {
      SiblingsListed(d, a);
    }
    assert d.store[a].nextSibling == NextIn(L, a) && d.store[a].preSibling == PrevIn(L, a);
    assert i + 1 < |L| && L[i + 1] == b by {
      PositionNeighbours(L, i);
    }
    assert b in d.store && SiblingsOf(d, b) == L by {
      SiblingsShared(d, a, i + 1);
    }
    assert d.store[b].nextSibling == NextIn(L, b);
    AdjacentSetupCore(d, L, i, a, b);
  }

  /** `AdjacentSetup` from the pair's positions and links. */
  lemma AdjacentSetupCore(d: Doc, L: seq<Key>, i: nat, a: Key, b: Key)
    requires a in d.store && b in d.store
    requires Listed(d.store, L, Owner(d, a)) && i + 1 < |L| && L[i] == a && L[i + 1] == b
    requires L == SiblingsOf(d, a) && SiblingsOf(d, b) == L
    requires d.store[a].preSibling == PrevIn(L, a) && d.store[b].nextSibling == NextIn(L, b)
    ensures AdjacentPair(d, a, b)
  {
    PositionNeighbours(L, i);
    PositionNeighbours(L, i + 1);
  }

  /** One block of a sequence that moved: its neighbours in the exchanged
      sequence, where the blocks at `i` and `i + 1` changed places. */
  lemma ExchangedNeighbours(L: seq<Key>, i: nat, j: nat)
    requires Distinct(L) && i + 1 < |L| && j < |L|
    ensures var L' := Exchanged(L, L[i], L[i + 1]);
      var k := L[j];
      && (forall x :: x in L' <==> x in L)
      && (j == i ==> PrevIn(L', k) == Some(L[i + 1]) && NextIn(L', k) == (if i + 2 == |L| then None else Some(L[i + 2])))
      && (j == i + 1 ==> PrevIn(L', k) == (if i == 0 then None else Some(L[i - 1])) && NextIn(L', k) == Some(L[i]))
      && (j + 1 == i ==> PrevIn(L', k) == PrevIn(L, k) && NextIn(L', k) == Some(L[i + 1]))
      && (j == i + 2 ==> PrevIn(L', k) == Some(L[i]) && NextIn(L', k) == NextIn(L, k))
      && (j + 1 != i && j != i && j != i + 1 && j != i + 2 ==> PrevIn(L', k) == PrevIn(L, k) && NextIn(L', k) == NextIn(L, k))
  {
    var L' := Exchanged(L, L[i], L[i + 1]);
    AdjacentExchangedEntries(L, i);
    PositionNeighbours(L, j);
    if j == i {
      PositionNeighbours(L', i + 1);
    } else if j == i + 1 {
      PositionNeighbours(L', i);
    } else {
      PositionNeighbours(L', j);
      assert L'[j] == L[j];
      assert j > 0 ==> L'[j - 1] == (if j - 1 == i + 1 then L[i] else L[j - 1]);
      assert j + 1 < |L| ==> L'[j + 1] == (if j + 1 == i then L[i + 1] else L[j + 1]);
    }
  }

  /** The sequence after an adjacent exchange, entry by entry. */
  lemma AdjacentExchangedEntries(L: seq<Key>, i: nat)
    requires Distinct(L) && i + 1 < |L|
    ensures var L' := Exchanged(L, L[i], L[i + 1]);
      && Distinct(L') && |L'| == |L| && (forall x :: x in L' <==> x in L)
      && L'[i] == L[i + 1] && L'[i + 1] == L[i]
      && forall m :: 0 <= m < |L| && m != i && m != i + 1 ==> L'[m] == L[m]
  {
    PositionNeighbours(L, i);
    PositionNeighbours(L, i + 1);
    ExchangedFacts(L, L[i], L[i + 1]);
  }

  /** One block of an adjacent swap, from the few facts about the document
      the argument needs. */
  lemma AdjacentSwapAtCore(d: Doc, L: seq<Key>, i: nat, k: Key)
    requires Distinct(L) && i + 1 < |L| && k in d.store
    requires L[i] in d.store && L[i + 1] in d.store && L[i] in L
    requires L == SiblingsOf(d, L[i])
    requires (i > 0 ==> L[i - 1] in d.store && d.store[L[i - 1]].key == L[i - 1])
    requires (i + 2 < |L| ==> L[i + 2] in d.store)
    requires d.store[L[i]].key == L[i] && d.store[L[i + 1]].key == L[i + 1]
    requires d.store[L[i]].preSibling == PrevIn(L, L[i]) && d.store[L[i + 1]].nextSibling == NextIn(L, L[i + 1])
    requires d.store[L[i]].nextSibling == Some(L[i + 1])
    requires d.store[k].preSibling == PrevIn(SiblingsOf(d, k), k)
    requires d.store[k].nextSibling == NextIn(SiblingsOf(d, k), k)
    requires k in L <==> Owner(d, k) == Owner(d, L[i])
    requires k in L ==> SiblingsOf(d, k) == L
    ensures var e := SwapArray(d, L[i], L[i + 1]);
      k in e.store && LinkSwap(e.store, L[i], L[i + 1])[k] == Relinked(e, k)
  {
    AdjacentLinkSwapValue(d, L, i, k);
  }

  /** The neighbours of the pair in the exchanged document, as `LinkSwap`
      needs them. */
  lemma AdjacentStoreFacts(d: Doc, L: seq<Key>, i: nat, k: Key)
    requires Distinct(L) && i + 1 < |L| && k in d.store
    requires L[i] in d.store && L[i + 1] in d.store && L[i] in L
    requires L == SiblingsOf(d, L[i])
    requires (i > 0 ==> L[i - 1] in d.store && d.store[L[i - 1]].key == L[i - 1])
    requires (i + 2 < |L| ==> L[i + 2] in d.store)
    requires d.store[L[i]].key == L[i] && d.store[L[i + 1]].key == L[i + 1]
    requires d.store[L[i]].preSibling == PrevIn(L, L[i]) && d.store[L[i + 1]].nextSibling == NextIn(L, L[i + 1])
    requires d.store[L[i]].nextSibling == Some(L[i + 1])
    requires d.store[k].preSibling == PrevIn(SiblingsOf(d, k), k)
    requires d.store[k].nextSibling == NextIn(SiblingsOf(d, k), k)
    requires k in L <==> Owner(d, k) == Owner(d, L[i])
    requires k in L ==> SiblingsOf(d, k) == L
    ensures var a, b := L[i], L[i + 1];
      var s := SwapArray(d, a, b).store;
      var p, n := Present(d.store, d.store[a].preSibling), Present(d.store, d.store[b].nextSibling);
      && a != b && p == (if i == 0 then None else Some(L[i - 1])) && n == (if i + 2 == |L| then None else Some(L[i + 2]))
      && k in s && s[a].key == a && s[b].key == b && Present(s, s[a].preSibling) == p && Present(s, s[b].nextSibling) == n
      && s[b].nextSibling == d.store[b].nextSibling
      && (p.Some? ==> s[p.value].key == p.value)
      && SameAsideChildren(s[k], d.store[k])
      && SiblingsOf(SwapArray(d, a, b), k) == (if k in L then Exchanged(L, a, b) else SiblingsOf(d, k))
  {
    var a, b := L[i], L[i + 1];
    var L' := Exchanged(L, a, b);
    var x := SwapArray(d, a, b);
    var s := x.store;
    var p, n := Present(d.store, d.store[a].preSibling), Present(d.store, d.store[b].nextSibling);
    AdjacentEnds(L, i);
    WithSiblingsAt(d, a, L', a);
    WithSiblingsAt(d, a, L', b);
    WithSiblingsAt(d, a, L', k);
    if p.Some? {
      WithSiblingsAt(d, a, L', p.value);
    }
  }

  /** The outer neighbours of two adjacent entries of a distinct sequence. */
  lemma AdjacentEnds(L: seq<Key>, i: nat)
    requires Distinct(L) && i + 1 < |L|
    ensures L[i] != L[i + 1]
    ensures PrevIn(L, L[i]) == (if i == 0 then None else Some(L[i - 1]))
    ensures NextIn(L, L[i + 1]) == (if i + 2 == |L| then None else Some(L[i + 2]))
  {
    PositionNeighbours(L, i);
    PositionNeighbours(L, i + 1);
  }

  /** What `LinkSwap` writes into block `k`: the links the exchanged
      sequence calls for. */
  lemma AdjacentLinkSwapValue(d: Doc, L: seq<Key>, i: nat, k: Key)
    requires Distinct(L) && i + 1 < |L| && k in d.store
    requires L[i] in d.store && L[i + 1] in d.store && L[i] in L
    requires L == SiblingsOf(d, L[i])
    requires (i > 0 ==> L[i - 1] in d.store && d.store[L[i - 1]].key == L[i - 1])
    requires (i + 2 < |L| ==> L[i + 2] in d.store)
    requires d.store[L[i]].key == L[i] && d.store[L[i + 1]].key == L[i + 1]
    requires d.store[L[i]].preSibling == PrevIn(L, L[i]) && d.store[L[i + 1]].nextSibling == NextIn(L, L[i + 1])
    requires d.store[L[i]].nextSibling == Some(L[i + 1])
    requires d.store[k].preSibling == PrevIn(SiblingsOf(d, k), k)
    requires d.store[k].nextSibling == NextIn(SiblingsOf(d, k), k)
    requires k in L <==> Owner(d, k) == Owner(d, L[i])
    requires k in L ==> SiblingsOf(d, k) == L
    ensures var e := SwapArray(d, L[i], L[i + 1]);
      && k in e.store
      && LinkSwap(e.store, L[i], L[i + 1])[k]
         == e.store[k].(preSibling := PrevIn(SiblingsOf(e, k), k), nextSibling := NextIn(SiblingsOf(e, k), k))
  {
    var a, b := L[i], L[i + 1];
    var e := SwapArray(d, a, b);
    var s := e.store;
    var p, n := Present(d.store, d.store[a].preSibling), Present(d.store, d.store[b].nextSibling);
    AdjacentStoreFacts(d, L, i, k);
    LinkSwapEffect(s, a, b, k);
    if k in L {
      ExchangedLinks(L, i, k);
    } else {
      assert k != a && k != b && p != Some(k) && n != Some(k);
    }
  }

  /** The links of one entry of the sequence after an adjacent exchange,
      by what the entry is: one of the pair, an outer neighbour, or neither. */
  lemma ExchangedLinks(L: seq<Key>, i: nat, k: Key)
    requires Distinct(L) && i + 1 < |L| && k in L
    ensures var a, b := L[i], L[i + 1];
      var p := if i == 0 then None else Some(L[i - 1]);
      var n := if i + 2 == |L| then None else Some(L[i + 2]);
      var L' := Exchanged(L, a, b);
      && PrevIn(L', k) == (if k == a then Some(b) else if k == b then p else if n == Some(k) then Some(a) else PrevIn(L, k))
      && NextIn(L', k) == (if k == a then n else if k == b then Some(a) else if p == Some(k) then Some(b) else NextIn(L, k))
  {
    var j := FindIndex(L, k);
    PositionNeighbours(L, j);
    ExchangedNeighbours(L, i, j);
  }

  /** One block of an adjacent swap: the rewrite leaves it with the links
      the exchanged sequence calls for. */
  lemma AdjacentSwapAt(d: Doc, a: Key, b: Key, k: Key)
    requires WellLinked(d) && a in d.store && d.store[a].nextSibling == Some(b) && k in d.store
    requires b in d.store && a in SiblingsOf(d, a) && b in SiblingsOf(d, a)
    ensures var e := SwapArray(d, a, b);
      k in e.store && LinkSwap(e.store, a, b)[k] == Relinked(e, k)
  {
    AdjacentSetup(d, a, b);
    var L := SiblingsOf(d, a);
    var i := FindIndex(L, a);
    assert d.store[a].key == a && d.store[b].key == b;
    assert i > 0 ==> d.store[L[i - 1]].key == L[i - 1];
    assert d.store[k].preSibling == PrevIn(SiblingsOf(d, k), k);
    assert d.store[k].nextSibling == NextIn(SiblingsOf(d, k), k);
    assert d.store[a].preSibling == PrevIn(L, a) && d.store[b].nextSibling == NextIn(L, b);
    SiblingsByOwner(d, a, k);
    AdjacentSwapAtCore(d, L, i, k);
  }

  /** Link rewrites that agree with `Relinked` on every block are `Relink`. */
  lemma LinkSwapIsRelink(e: Doc, a: Key, b: Key)
    requires a in e.store && b in e.store
    requires forall k :: k in e.store ==> LinkSwap(e.store, a, b)[k] == Relinked(e, k)
    ensures e.(store := LinkSwap(e.store, a, b)) == Relink(e)
  {
    DocExt(e.(store := LinkSwap(e.store, a, b)), Relink(e));
  }

  /** For adjacent `a` then `b`, the link rewrites give exactly the links the
      exchanged sequence calls for. */
  lemma AdjacentSwapRelinks(d: Doc, a: Key, b: Key)
    requires WellLinked(d) && a in d.store && d.store[a].nextSibling == Some(b)
    ensures b in d.store && a != b
    ensures a in SiblingsOf(d, a) && b in SiblingsOf(d, a) && SiblingsOf(d, b) == SiblingsOf(d, a)
    ensures var e := SwapArray(d, a, b);
      e.(store := LinkSwap(e.store, a, b)) == Relink(e)
  {
    AdjacentSetup(d, a, b);
    var e := SwapArray(d, a, b);
    assert forall k :: k in e.store ==> LinkSwap(e.store, a, b)[k] == Relinked(e, k) by {
      forall k | k in e.store ensures LinkSwap(e.store, a, b)[k] == Relinked(e, k) {
        AdjacentSwapAt(d, a, b, k);
      }
    }
    LinkSwapIsRelink(e, a, b);
  }

  /** The write-back depends only on the owner of the block it is given. */
  lemma WithSiblingsByOwner(d: Doc, a: Key, b: Key, x: seq<Key>)
    requires a in d.store && b in d.store && Owner(d, a) == Owner(d, b)
    ensures WithSiblings(d, a, x) == WithSiblings(d, b, x)
  {
  }

  /** The exchange is the same whichever order the two blocks are passed in. */
  lemma SwapArraySymmetric(d: Doc, a: Key, b: Key)
    requires Structured(d) && a in d.store && b in d.store
    requires a in SiblingsOf(d, a) && b in SiblingsOf(d, a)
    ensures SiblingsOf(d, b) == SiblingsOf(d, a) && a in SiblingsOf(d, b)
    ensures SwapArray(d, a, b) == SwapArray(d, b, a)
  {
    var L := SiblingsOf(d, a);
    assert SiblingsOf(d, b) == L && Owner(d, a) == Owner(d, b) by {
      SiblingsByOwner(d, a, b);
    }
    SiblingsListed(d, a);
    ExchangedFacts(L, a, b);
    WithSiblingsByOwner(d, a, b, Exchanged(L, a, b));
  }

  /** The three outcomes of `Swap` once both blocks are found. */
  lemma SwapBranches(d: Doc, a: Key, b: Key)
    requires a in d.store && b in d.store && a in SiblingsOf(d, a) && b in SiblingsOf(d, a)
    ensures var e := SwapArray(d, a, b);
      && a in e.store && b in e.store
      && Swap(d, Some(a), Some(b)) ==
         if e.store[a].nextSibling == Some(e.store[b].key) then (e.(store := LinkSwap(e.store, a, b)), true)
         else if e.store[b].nextSibling == Some(e.store[a].key) then (e.(store := LinkSwap(e.store, b, a)), true)
         else (e, true)
  {
  }

  /** `swapBlocks(a, b)` with `a` immediately before `b` takes the first branch. */
  lemma SwapForward(d: Doc, a: Key, b: Key)
    requires WellLinked(d) && a in d.store && d.store[a].nextSibling == Some(b)
    ensures b in d.store && a in SiblingsOf(d, a) && b in SiblingsOf(d, a)
    ensures Swap(d, Some(a), Some(b)) == (Relink(SwapArray(d, a, b)), true)
  {
    AdjacentSetup(d, a, b);
    var L := SiblingsOf(d, a);
    var e := SwapArray(d, a, b);
    assert e.store[a].nextSibling == Some(e.store[b].key) by {
      WithSiblingsAt(d, a, Exchanged(L, a, b), a);
      WithSiblingsAt(d, a, Exchanged(L, a, b), b);
    }
    assert e.(store := LinkSwap(e.store, a, b)) == Relink(e) by {
      AdjacentSwapRelinks(d, a, b);
    }
    SwapBranches(d, a, b);
  }

  /** `swapBlocks(a, b)` with `b` immediately before `a` takes the second branch. */
  lemma SwapBackward(d: Doc, a: Key, b: Key)
    requires WellLinked(d) && b in d.store && d.store[b].nextSibling == Some(a)
    ensures a in d.store && a in SiblingsOf(d, a) && b in SiblingsOf(d, a)
    ensures Swap(d, Some(a), Some(b)) == (Relink(SwapArray(d, a, b)), true)
  {
    AdjacentSetup(d, b, a);
    var L := SiblingsOf(d, b);
    assert SwapArray(d, a, b) == SwapArray(d, b, a) && SiblingsOf(d, a) == L by {
      SwapArraySymmetric(d, b, a);
    }
    var e := SwapArray(d, a, b);
    assert e.store[a].nextSibling != Some(e.store[b].key) && e.store[b].nextSibling == Some(e.store[a].key) by {
      WithSiblingsAt(d, b, Exchanged(L, b, a), a);
      WithSiblingsAt(d, b, Exchanged(L, b, a), b);
      var i := FindIndex(L, b);
      PositionNeighbours(L, i + 1);
      assert d.store[a].nextSibling == NextIn(L, a);
    }
    assert e.(store := LinkSwap(e.store, b, a)) == Relink(e) by {
      AdjacentSwapRelinks(d, b, a);
    }
    SwapBranches(d, a, b);
  }

  /** Swapping adjacent siblings (in either argument order) exchanges them in
      their sequence and leaves the links consistent with the new order. */
  lemma SwapAdjacent(d: Doc, k1: Key, k2: Key)
    requires WellLinked(d) && k1 in d.store && k2 in d.store
    requires d.store[k1].nextSibling == Some(k2) || d.store[k2].nextSibling == Some(k1)
    ensures k1 in SiblingsOf(d, k1) && k2 in SiblingsOf(d, k1)
    ensures var r := Swap(d, Some(k1), Some(k2));
      && r.1
      && r.0 == Relink(SwapArray(d, k1, k2))
      && WellLinked(r.0)
  {
    if d.store[k1].nextSibling == Some(k2) {
      SwapForward(d, k1, k2);
    } else {
      SwapBackward(d, k1, k2);
    }
    SwapArrayStructured(d, k1, k2);
    RelinkIsWellLinked(SwapArray(d, k1, k2));
  }

  /** A block exchanged with a non-neighbour has a different successor in
      the new sequence than it had in the old one. */
  lemma NonAdjacentNextMoves(L: seq<Key>, i: nat, j: nat)
    requires Distinct(L) && i < |L| && j < |L| && i != j && j != i + 1 && i != j + 1
    ensures L[i] in Exchanged(L, L[i], L[j])
    ensures NextIn(Exchanged(L, L[i], L[j]), L[i]) != NextIn(L, L[i])
  {
    PositionNeighbours(L, i);
    PositionNeighbours(L, j);
    var L' := Exchanged(L, L[i], L[j]);
    ExchangedFacts(L, L[i], L[j]);
    PositionNeighbours(L', j);
    if i + 1 < |L| && j + 1 < |L| {
      assert L'[j + 1] == L[j + 1];
    }
  }

  /** The non-adjacent case from the facts it needs: both blocks keyed by
      their keys, neither the other's successor, `k1`'s successor read off
      its sequence. The exchange then gives `k1` a different successor. */
  lemma SwapNonAdjacentCore(d: Doc, L: seq<Key>, k1: Key, k2: Key)
    requires k1 in d.store && k2 in d.store && k1 != k2
    requires L == SiblingsOf(d, k1) && Distinct(L) && k1 in L && k2 in L
    requires d.store[k1].key == k1 && d.store[k2].key == k2
    requires d.store[k1].nextSibling == NextIn(L, k1) && d.store[k2].nextSibling == NextIn(L, k2)
    requires d.store[k1].nextSibling != Some(k2) && d.store[k2].nextSibling != Some(k1)
    ensures var e := SwapArray(d, k1, k2);
      && k1 in e.store
      && Swap(d, Some(k1), Some(k2)) == (e, true)
      && e.store[k1].nextSibling != NextIn(SiblingsOf(e, k1), k1)
  {
    var i, j := FindIndex(L, k1), FindIndex(L, k2);
    var L' := Exchanged(L, k1, k2);
    var e := SwapArray(d, k1, k2);
    assert e.store[k1].nextSibling == d.store[k1].nextSibling && e.store[k2].nextSibling == d.store[k2].nextSibling
        && e.store[k1].key == k1 && e.store[k2].key == k2 && SiblingsOf(e, k1) == L' by {
      WithSiblingsAt(d, k1, L', k1);
      WithSiblingsAt(d, k1, L', k2);
    }
    assert j != i + 1 && i != j + 1 by {
      PositionNeighbours(L, i);
      PositionNeighbours(L, j);
    }
    NonAdjacentNextMoves(L, i, j);
    SwapBranches(d, k1, k2);
  }

  /** Non-adjacent siblings are still exchanged in the sequence and reported
      as swapped, but their links are left as they were, so a consistent
      document becomes inconsistent. */
  lemma SwapNonAdjacent(d: Doc, k1: Key, k2: Key)
    requires WellLinked(d) && k1 in d.store && k2 in d.store && k1 != k2
    requires k2 in SiblingsOf(d, k1)
    requires d.store[k1].nextSibling != Some(k2) && d.store[k2].nextSibling != Some(k1)
    ensures k1 in SiblingsOf(d, k1)
    ensures var r := Swap(d, Some(k1), Some(k2));
      && r.1
      && r.0 == SwapArray(d, k1, k2)
      && !WellLinked(r.0)
  {
    var L := SiblingsOf(d, k1);
    assert Distinct(L) && k1 in L && SiblingsOf(d, k2) == L by {
      SiblingsListed(d, k1);
      SiblingsByOwner(d, k1, k2);
    }
    assert d.store[k1].nextSibling == NextIn(L, k1) && d.store[k2].nextSibling == NextIn(L, k2);
    assert d.store[k1].key == k1 && d.store[k2].key == k2;
    SwapNonAdjacentCore(d, L, k1, k2);
    MisplacedLink(SwapArray(d, k1, k2), k1);
  }

  /** One block whose successor link disagrees with its sequence makes the
      document inconsistent. */
  lemma MisplacedLink(e: Doc, k: Key)
    requires k in e.store && e.store[k].nextSibling != NextIn(SiblingsOf(e, k), k)
    ensures !WellLinked(e)
  {
  }

  /** Exchanging a pair and then, in any document of the same shape, the
      same pair back: seen from one block `q`, its record is the original one
      apart from its links. */
  lemma SwapBackAt(d: Doc, e: Doc, a: Key, b: Key, q: Key)
    requires a in d.store && b in d.store && q in d.store && Owner(d, b) == Owner(d, a)
    requires Distinct(SiblingsOf(d, a)) && a in SiblingsOf(d, a) && b in SiblingsOf(d, a)
    requires SameShape(SwapArray(d, a, b), e)
    requires b in e.store && b in SiblingsOf(e, b) && a in SiblingsOf(e, b)
    ensures var y := SwapArray(e, b, a);
      && q in y.store
      && y.store[q].key == d.store[q].key && y.store[q].blockType == d.store[q].blockType
      && y.store[q].text == d.store[q].text && y.store[q].functionType == d.store[q].functionType
      && y.store[q].parent == d.store[q].parent && y.store[q].editable == d.store[q].editable
      && y.store[q].children == d.store[q].children
  {
    SwapBackSiblings(d, e, a, b);
    SwapBackAtCore(d, SwapArray(d, a, b), e, SiblingsOf(d, a), Exchanged(SiblingsOf(d, a), a, b), a, b, q);
  }

  /** After the exchange, `b`'s sequence is the exchanged one, and exchanging
      back gives the original. */
  lemma SwapBackSiblings(d: Doc, e: Doc, a: Key, b: Key)
    requires a in d.store && b in d.store && Owner(d, b) == Owner(d, a)
    requires Distinct(SiblingsOf(d, a)) && a in SiblingsOf(d, a) && b in SiblingsOf(d, a)
    requires SameShape(SwapArray(d, a, b), e)
    requires b in e.store && b in SiblingsOf(e, b) && a in SiblingsOf(e, b)
    ensures SiblingsOf(e, b) == Exchanged(SiblingsOf(d, a), a, b)
    ensures Owner(e, b) == Owner(d, a)
    ensures Exchanged(SiblingsOf(e, b), b, a) == SiblingsOf(d, a)
  {
    var L := SiblingsOf(d, a);
    var L' := Exchanged(L, a, b);
    var x := SwapArray(d, a, b);
    assert SiblingsOf(e, b) == L' && Owner(e, b) == Owner(d, a) by {
      WithSiblingsAt(d, a, L', b);
      ShapeSiblings(x, e, b);
    }
    ExchangedBack(L, a, b);
  }

  /** Exchanging back, naming the pair in the other order, restores the sequence. */
  lemma ExchangedBack(L: seq<Key>, a: Key, b: Key)
    requires Distinct(L) && a in L && b in L
    ensures var L' := Exchanged(L, a, b);
      a in L' && b in L' && Exchanged(L', b, a) == L
  {
    var L' := Exchanged(L, a, b);
    ExchangedTwice(L, a, b);
    ExchangedFacts(L, a, b);
    ExchangedFacts(L', a, b);
  }

  /** `SwapBackAt` from the sequences involved. */
  lemma SwapBackAtCore(d: Doc, x: Doc, e: Doc, L: seq<Key>, L': seq<Key>, a: Key, b: Key, q: Key)
    requires a in d.store && b in e.store && q in d.store && q in x.store
    requires x == WithSiblings(d, a, L') && L == SiblingsOf(d, a)
    requires SameShape(x, e) && Owner(e, b) == Owner(d, a)
    ensures var y := WithSiblings(e, b, L);
      && q in y.store
      && y.store[q].key == d.store[q].key && y.store[q].blockType == d.store[q].blockType
      && y.store[q].text == d.store[q].text && y.store[q].functionType == d.store[q].functionType
      && y.store[q].parent == d.store[q].parent && y.store[q].editable == d.store[q].editable
      && y.store[q].children == d.store[q].children
  {
    var y := WithSiblings(e, b, L);
    assert SameAsideChildren(x.store[q], d.store[q])
      && x.store[q].children == (if Some(q) == Owner(d, a) then L' else d.store[q].children) by {
      WithSiblingsAt(d, a, L', q);
    }
    assert q in y.store && SameAsideChildren(y.store[q], e.store[q])
      && y.store[q].children == (if Some(q) == Owner(d, a) then L else e.store[q].children) by {
      WithSiblingsAt(e, b, L, q);
    }
  }

  /** Before relinking, the exchanged pair's second block sits in front of
      the first in its new sequence. */
  lemma ExchangedPairNext(d: Doc, L: seq<Key>, i: nat)
    requires Distinct(L) && i + 1 < |L| && L[i] in d.store && L[i + 1] in d.store
    requires L == SiblingsOf(d, L[i]) && L[i] in L && L[i + 1] in L
    requires Owner(d, L[i + 1]) == Owner(d, L[i])
    ensures var x := SwapArray(d, L[i], L[i + 1]);
      var L' := Exchanged(L, L[i], L[i + 1]);
      && L[i + 1] in x.store
      && SiblingsOf(x, L[i + 1]) == L'
      && L[i] in L' && L[i + 1] in L'
      && NextIn(L', L[i + 1]) == Some(L[i])
  {
    var L' := Exchanged(L, L[i], L[i + 1]);
    WithSiblingsAt(d, L[i], L', L[i + 1]);
    ExchangedNeighbours(L, i, i + 1);
  }

  /** After swapping `a` with its successor `b`, the document is consistent
      again and `b` is now immediately before `a`. */
  lemma SwapInverseLink(d: Doc, a: Key, b: Key)
    requires WellLinked(d) && a in d.store && d.store[a].nextSibling == Some(b)
    ensures b in d.store && a in SiblingsOf(d, a) && b in SiblingsOf(d, a)
    ensures Structured(SwapArray(d, a, b))
    ensures var e := Relink(SwapArray(d, a, b));
      && WellLinked(e) && a in e.store && b in e.store
      && e.store[b].nextSibling == Some(a)
      && b in SiblingsOf(e, b) && a in SiblingsOf(e, b)
  {
    var L := SiblingsOf(d, a);
    var i := FindIndex(L, a);
    assert Distinct(L) && 0 <= i && i + 1 < |L| && L[i] == a && L[i + 1] == b
      && b in d.store && Owner(d, b) == Owner(d, a) by {
      AdjacentSetup(d, a, b);
      SiblingsByOwner(d, a, b);
    }
    var x := SwapArray(d, a, b);
    ExchangedPairNext(d, L, i);
    SwapArrayStructured(d, a, b);
    var e := Relink(x);
    RelinkIsWellLinked(x);
    ShapeSiblings(x, e, b);
  }

  /** Exchanging twice puts the top-level sequence back, whatever links the
      document in between carries. */
  lemma SwapTwiceBlocks(d: Doc, e: Doc, a: Key, b: Key)
    requires a in d.store && b in d.store && Owner(d, b) == Owner(d, a)
    requires Distinct(SiblingsOf(d, a)) && a in SiblingsOf(d, a) && b in SiblingsOf(d, a)
    requires SameShape(SwapArray(d, a, b), e)
    requires b in e.store && b in SiblingsOf(e, b) && a in SiblingsOf(e, b)
    ensures SwapArray(e, b, a).blocks == d.blocks
  {
    var L := SiblingsOf(d, a);
    var L' := Exchanged(L, a, b);
    var x := SwapArray(d, a, b);
    assert HasParentIn(e.store, b) == HasParentIn(d.store, a) && SiblingsOf(e, b) == SiblingsOf(x, b) by {
      WithSiblingsAt(d, a, L', b);
      ShapeSiblings(x, e, b);
    }
    if !HasParentIn(d.store, a) {
      assert e.blocks == L' && SiblingsOf(e, b) == L' by {
        WithSiblingsAt(d, a, L', b);
      }
      assert Exchanged(L', b, a) == L by {
        ExchangedFacts(L, a, b);
        ExchangedTwice(L, a, b);
        ExchangedFacts(L', a, b);
      }
    }
  }

  /** Exchanging a pair and then the same pair back gives a document of the
      original shape. */
  lemma SwapBackShape(d: Doc, e: Doc, a: Key, b: Key)
    requires a in d.store && b in d.store && Owner(d, b) == Owner(d, a)
    requires Distinct(SiblingsOf(d, a)) && a in SiblingsOf(d, a) && b in SiblingsOf(d, a)
    requires SameShape(SwapArray(d, a, b), e)
    requires b in e.store && b in SiblingsOf(e, b) && a in SiblingsOf(e, b)
    ensures SameShape(d, SwapArray(e, b, a))
  {
    var y := SwapArray(e, b, a);
    forall q | q in d.store
      ensures q in y.store
      ensures y.store[q].key == d.store[q].key && y.store[q].blockType == d.store[q].blockType
      ensures y.store[q].text == d.store[q].text && y.store[q].functionType == d.store[q].functionType
      ensures y.store[q].parent == d.store[q].parent && y.store[q].editable == d.store[q].editable
      ensures y.store[q].children == d.store[q].children
    {
      SwapBackAt(d, e, a, b, q);
    }
    SwapTwiceBlocks(d, e, a, b);
    assert y.store.Keys == d.store.Keys;
  }

  /** Exchanging the pair back after the relinked swap restores every
      record apart from its links, and the top-level sequence. */
  lemma SwapInverseShape(d: Doc, a: Key, b: Key)
    requires WellLinked(d) && a in d.store && d.store[a].nextSibling == Some(b)
    ensures b in d.store && a in SiblingsOf(d, a) && b in SiblingsOf(d, a)
    ensures var e := Relink(SwapArray(d, a, b));
      && b in e.store && b in SiblingsOf(e, b) && a in SiblingsOf(e, b)
      && SameShape(d, SwapArray(e, b, a))
  {
    SwapInverseLink(d, a, b);
    var x := SwapArray(d, a, b);
    var e := Relink(x);
    assert SameShape(x, e) by {
      RelinkIsWellLinked(x);
    }
    assert Owner(d, b) == Owner(d, a) && Distinct(SiblingsOf(d, a)) by {
      AdjacentSetup(d, a, b);
      SiblingsByOwner(d, a, b);
    }
    SwapBackShape(d, e, a, b);
  }

  /** Swapping the resulting pair again restores the sequence and every link. */
  lemma SwapInverse(d: Doc, a: Key, b: Key)
    requires WellLinked(d) && a in d.store && d.store[a].nextSibling == Some(b)
    ensures b in d.store
    ensures var e := Swap(d, Some(a), Some(b)).0;
      && b in e.store && a in e.store
      && e.store[b].nextSibling == Some(a)
      && Swap(e, Some(b), Some(a)) == (d, true)
  {
    SwapInverseLink(d, a, b);
    SwapAdjacent(d, a, b);
    var e := Relink(SwapArray(d, a, b));
    SwapAdjacent(e, b, a);
    SwapInverseShape(d, a, b);
    RelinkIgnoresLinks(d, SwapArray(e, b, a));
    RelinkOfWellLinked(d);
  }

  // ---------------------------------------------------------------------
  // moveLineUp / moveLineDown
  // ---------------------------------------------------------------------

  datatype Direction = Up | Down

  /** The neighbour the block trades places with: its `preSibling` for a
      move up, its `nextSibling` for a move down, when that block exists. */
  function Partner(s: Store, m: Key, dir: Direction): (r: Option<Key>)
    requires m in s
    ensures var link := if dir == Up then s[m].preSibling else s[m].nextSibling;
      (r.Some? <==> link.Some? && link.value in s) && (r.Some? ==> r == link)
  {
    Present(s, if dir == Up then s[m].preSibling else s[m].nextSibling)
  }

  /** `editable === false`: only an explicit `false` blocks the move. */
  predicate Locked(b: Block) {
    b.editable == Some(false)
  }

  /** `moveLineUp` / `moveLineDown` on documents: the new document and the result. */
  function Move(d: Doc, ghost rank: map<Key, nat>, cursor: Cursor, dir: Direction): (r: (Doc, bool))
    requires Ranked(d.store, rank)
    ensures !r.1 ==> r.0 == d
  {
    match MovableBlock(d.store, rank, cursor)
    case None => (d, false)
    case Some(m) =>
      match Partner(d.store, m, dir)
      case None => (d, false)
      case Some(q) =>
        if Locked(d.store[q]) then (d, false)
        else if dir == Up then Swap(d, Some(q), Some(m))
        else Swap(d, Some(m), Some(q))
  }

  /** A move fails, changing nothing, exactly when there is no movable block,
      it has no neighbour in that direction, or the neighbour is not editable;
      on a consistent document every other move succeeds. */
  lemma MoveGuards(d: Doc, rank: map<Key, nat>, cursor: Cursor, dir: Direction)
    requires WellLinked(d) && Ranked(d.store, rank)
    ensures var m := MovableBlock(d.store, rank, cursor);
      !Move(d, rank, cursor, dir).1 <==>
        m.None? || Partner(d.store, m.value, dir).None? || Locked(d.store[Partner(d.store, m.value, dir).value])
  {
    var m := MovableBlock(d.store, rank, cursor);
    if m.Some? && Partner(d.store, m.value, dir).Some? {
      var q := Partner(d.store, m.value, dir).value;
      LinksMutual(d, m.value);
      if !Locked(d.store[q]) {
        if dir == Up {
          SwapAdjacent(d, q, m.value);
        } else {
          SwapAdjacent(d, m.value, q);
        }
      }
    }
  }

  /** A successful move keeps the document consistent, exchanges the block
      with its neighbour, and the block then has that neighbour on the other
      side. */
  /** A move never breaks the agreement of the links with the arrays. */
  lemma MoveKeepsWellLinked(d: Doc, rank: map<Key, nat>, cursor: Cursor, dir: Direction)
    requires Ranked(d.store, rank)
    ensures WellLinked(d) ==> WellLinked(Move(d, rank, cursor, dir).0)
  {
    if WellLinked(d) && Move(d, rank, cursor, dir).1 {
      MoveSucceeds(d, rank, cursor, dir);
    }
  }

  lemma MoveSucceeds(d: Doc, rank: map<Key, nat>, cursor: Cursor, dir: Direction)
    requires WellLinked(d) && Ranked(d.store, rank) && Move(d, rank, cursor, dir).1
    ensures var m := MovableBlock(d.store, rank, cursor).value;
      var q := Partner(d.store, m, dir).value;
      var e := Move(d, rank, cursor, dir).0;
      && WellLinked(e)
      && e == Relink(SwapArray(d, m, q))
      && m in e.store && q in e.store
      && (dir == Up ==> e.store[m].nextSibling == Some(q) && e.store[q].preSibling == Some(m))
      && (dir == Down ==> e.store[m].preSibling == Some(q) && e.store[q].nextSibling == Some(m))
  {
    var m := MovableBlock(d.store, rank, cursor).value;
    var q := Partner(d.store, m, dir).value;
    LinksMutual(d, m);
    if dir == Up {
      SwapInverse(d, q, m);
      SwapAdjacent(d, q, m);
      AdjacentSwapRelinks(d, q, m);
      SwapArraySymmetric(d, q, m);
      var e := Swap(d, Some(q), Some(m)).0;
      LinksMutual(e, m);
    } else {
      SwapInverse(d, m, q);
      SwapAdjacent(d, m, q);
      var e := Swap(d, Some(m), Some(q)).0;
      LinksMutual(e, q);
    }
  }

  /** Moving a block up and then down again restores the document: the same
      block is found again and the second swap undoes the first. */
  lemma MoveUpThenDown(d: Doc, rank: map<Key, nat>, cursor: Cursor)
    requires WellLinked(d) && Ranked(d.store, rank) && Move(d, rank, cursor, Up).1
    ensures Ranked(Move(d, rank, cursor, Up).0.store, rank)
    ensures Move(Move(d, rank, cursor, Up).0, rank, cursor, Down) == (d, true)
  {
    var m := MovableBlock(d.store, rank, cursor).value;
    var q := Partner(d.store, m, Up).value;
    LinksMutual(d, m);
    SwapInverse(d, q, m);
    var e := Move(d, rank, cursor, Up).0;
    assert e == Swap(d, Some(q), Some(m)).0;
    MoveKeepsWalk(d, rank, cursor, Up);
    assert Partner(e.store, m, Down) == Some(q);
    MoveSucceeds(d, rank, cursor, Up);
    assert !Locked(e.store[q]) by {
      assert e.store[q].editable == d.store[q].editable;
    }
  }

  /** A move changes only links and sequences, so the same block is movable
      afterwards. */
  lemma MoveKeepsWalk(d: Doc, rank: map<Key, nat>, cursor: Cursor, dir: Direction)
    requires WellLinked(d) && Ranked(d.store, rank)
    ensures var e := Move(d, rank, cursor, dir).0;
      && Ranked(e.store, rank)
      && MovableBlock(e.store, rank, cursor) == MovableBlock(d.store, rank, cursor)
      && (forall k :: k in d.store ==> k in e.store && e.store[k].editable == d.store[k].editable)
  {
    var r := Move(d, rank, cursor, dir);
    if r.1 {
      MoveSucceeds(d, rank, cursor, dir);
      var m := MovableBlock(d.store, rank, cursor).value;
      var q := Partner(d.store, m, dir).value;
      LinksMutual(d, m);
      SiblingsListed(d, m);
      var L := SiblingsOf(d, m);
      var x := SwapArray(d, m, q);
      SwapArrayStructured(d, m, q);
      RelinkIsWellLinked(x);
      var e := r.0;
      forall k | k in d.store
        ensures k in e.store && e.store[k].parent == d.store[k].parent
        ensures e.store[k].blockType == d.store[k].blockType && e.store[k].editable == d.store[k].editable
      {
        WithSiblingsAt(d, m, Exchanged(L, m, q), k);
      }
      assert e.store.Keys == d.store.Keys;
      SameParentsRanked(d.store, e.store, rank);
      WalkSameParents(d.store, e.store, rank, cursor);
    }
  }

  /** A store with the same keys and parents keeps the ranking. */
  lemma SameParentsRanked(s: Store, t: Store, rank: map<Key, nat>)
    requires Ranked(s, rank) && s.Keys == t.Keys
    requires forall k :: k in s ==> t[k].parent == s[k].parent
    ensures Ranked(t, rank)
  {
    forall k | k in t && HasParentIn(t, k) ensures rank[t[k].parent.value] < rank[k] {
      assert HasParentIn(s, k);
    }
  }

  /** The walk reads only keys, types and parents. */
  lemma WalkSameParents(s: Store, t: Store, rank: map<Key, nat>, cursor: Cursor)
    requires Ranked(s, rank) && Ranked(t, rank) && s.Keys == t.Keys
    requires forall k :: k in s ==> t[k].parent == s[k].parent && t[k].blockType == s[k].blockType
    ensures MovableBlock(t, rank, cursor) == MovableBlock(s, rank, cursor)
  {
    if cursor.start.Some? && cursor.start.value.key in s {
      var k := cursor.start.value.key;
      WalkSameParentsFrom(s, t, rank, k, k);
    }
  }

  lemma {:induction false} WalkSameParentsFrom(s: Store, t: Store, rank: map<Key, nat>, k: Key, origin: Key)
    requires Ranked(s, rank) && Ranked(t, rank) && s.Keys == t.Keys && k in s && origin in s
    requires forall k :: k in s ==> t[k].parent == s[k].parent && t[k].blockType == s[k].blockType
    ensures Walk(t, rank, k, origin) == Walk(s, rank, k, origin)
    decreases rank[k]
  {
    ClosestSameParents(s, t, rank, k);
    OutMostSameParents(s, t, rank, origin);
    if HasParentIn(s, k) {
      WalkSameParentsFrom(s, t, rank, s[k].parent.value, origin);
    }
  }

  lemma {:induction false} ClosestSameParents(s: Store, t: Store, rank: map<Key, nat>, k: Key)
    requires Ranked(s, rank) && Ranked(t, rank) && s.Keys == t.Keys && k in s
    requires forall k :: k in s ==> t[k].parent == s[k].parent && t[k].blockType == s[k].blockType
    ensures Closest(t, rank, k, "li") == Closest(s, rank, k, "li")
    decreases rank[k]
  {
    if HasParentIn(s, k) {
      ClosestSameParents(s, t, rank, s[k].parent.value);
    }
  }

  lemma {:induction false} OutMostSameParents(s: Store, t: Store, rank: map<Key, nat>, k: Key)
    requires Ranked(s, rank) && Ranked(t, rank) && s.Keys == t.Keys && k in s
    requires forall k :: k in s ==> t[k].parent == s[k].parent && t[k].blockType == s[k].blockType
    ensures FindOutMostBlock(t, rank, k) == FindOutMostBlock(s, rank, k)
    decreases rank[k]
  {
    if HasParentIn(s, k) {
      OutMostSameParents(s, t, rank, s[k].parent.value);
    }
  }

  // ---------------------------------------------------------------------
  // handleMoveLineKeydown
  // ---------------------------------------------------------------------

  /** The move a key event asks for: Alt alone with ArrowUp or ArrowDown. */
  function MoveLineKey(ev: KeyEvent): (r: Option<Direction>)
    ensures r.Some? <==>
      ev.altKey && !ev.ctrlKey && !ev.metaKey && !ev.shiftKey && (ev.key == "ArrowUp" || ev.key == "ArrowDown")
    ensures r == Some(Up) ==> ev.key == "ArrowUp"
    ensures r == Some(Down) ==> ev.key == "ArrowDown"
  {
    if !ev.altKey then None
    else if ev.ctrlKey || ev.metaKey || ev.shiftKey then None
    else if ev.key == "ArrowUp" then Some(Up)
    else if ev.key == "ArrowDown" then Some(Down)
    else None
  }
}
