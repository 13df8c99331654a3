/**
 * The editor's document as the two controllers see it: block records kept
 * in a table by key, the top-level block sequence, the cursor, and the
 * lookups (`getBlock`, `getParent`, `closest`, `findOutMostBlock`,
 * `findIndex`) they call. Those lookups live in Muya files that are not
 * part of this model; here they are plain lookups over the table.
 *
 * A block's `parent`, `preSibling` and `nextSibling` are keys into the
 * table. The sibling order is kept twice: in the owner's `children` (or in
 * the top-level `blocks`) and in the `preSibling`/`nextSibling` chain.
 * `WellLinked` says the two agree.
 */
module ContentModel {
  import opened Wrappers

  type Key = string

  /** A block record. `editable` is `None` when the record has no such
      property; `functionType` is "" when it has none. */
  datatype Block = Block(
    key: Key,
    blockType: string,
    text: string,
    functionType: string,
    parent: Option<Key>,
    preSibling: Option<Key>,
    nextSibling: Option<Key>,
    children: seq<Key>,
    editable: Option<bool>)

  type Store = map<Key, Block>

  /** The block table and the top-level sequence (the editor's `this.blocks`). */
  datatype Doc = Doc(store: Store, blocks: seq<Key>)

  /** One end of a selection: a block key and a character offset into its text. */
  datatype Position = Position(key: Key, offset: nat)

  /** The selection; either end may be missing. */
  datatype Cursor = Cursor(start: Option<Position>, end: Option<Position>)

  /** The parts of a keyboard event the controllers read, and whether
      `preventDefault` has been called on it. */
  datatype KeyEvent = KeyEvent(
    key: string,
    altKey: bool,
    ctrlKey: bool,
    metaKey: bool,
    shiftKey: bool,
    defaultPrevented: bool)

  /** `getBlock`: `None` for an absent key or one with no block. */
  function GetBlock(s: Store, key: Option<Key>): (r: Option<Block>)
    ensures r.Some? <==> key.Some? && key.value in s
    ensures r.Some? ==> r.value == s[key.value]
  {
    if key.Some? && key.value in s then Some(s[key.value]) else None
  }

  /** `getParent`. */
  function GetParent(s: Store, b: Block): Option<Block> {
    GetBlock(s, b.parent)
  }

  predicate HasParentIn(s: Store, k: Key)
    requires k in s
  {
    s[k].parent.Some? && s[k].parent.value in s
  }

  /** `findIndex`: the first position of `k`, or -1. */
  function FindIndex(a: seq<Key>, k: Key): (i: int)
    ensures -1 <= i < |a|
    ensures 0 <= i ==> a[i] == k && forall j :: 0 <= j < i ==> a[j] != k
    ensures i == -1 <==> k !in a
  {
    if |a| == 0 then -1
    else if a[0] == k then 0
    else
      var j := FindIndex(a[1..], k);
      if j == -1 then -1 else j + 1
  }

  /** A ranking under which every parent sits strictly below its child: the
      parent chain is acyclic, so every upward walk ends. */
  ghost predicate Ranked(s: Store, rank: map<Key, nat>) {
    && s.Keys <= rank.Keys
    && forall k {:trigger s[k].parent} :: k in s && HasParentIn(s, k) ==> rank[s[k].parent.value] < rank[k]
  }

  /** The chain from `k` up through its parents, `k` first, ending at a block
      whose parent is absent. */
  ghost function Ancestors(s: Store, rank: map<Key, nat>, k: Key): (chain: seq<Key>)
    requires Ranked(s, rank) && k in s
    ensures |chain| >= 1 && chain[0] == k
    ensures forall i :: 0 <= i < |chain| ==> chain[i] in s
    ensures !HasParentIn(s, chain[|chain| - 1])
    decreases rank[k]
  {
    if HasParentIn(s, k) then [k] + Ancestors(s, rank, s[k].parent.value) else [k]
  }

  /** Each block of the chain is the parent of the one before it. */
  lemma {:induction false} AncestorsChain(s: Store, rank: map<Key, nat>, k: Key, i: nat)
    requires Ranked(s, rank) && k in s && i + 1 < |Ancestors(s, rank, k)|
    ensures var chain := Ancestors(s, rank, k);
      HasParentIn(s, chain[i]) && s[chain[i]].parent.value == chain[i + 1]
    decreases rank[k]
  {
    if i > 0 {
      AncestorsChain(s, rank, s[k].parent.value, i - 1);
    }
  }

  /** The chain from an ancestor on is the tail of the chain. */
  lemma {:induction false} AncestorsSuffix(s: Store, rank: map<Key, nat>, k: Key, i: nat)
    requires Ranked(s, rank) && k in s
    requires i < |Ancestors(s, rank, k)|
    ensures Ancestors(s, rank, Ancestors(s, rank, k)[i]) == Ancestors(s, rank, k)[i..]
    decreases rank[k]
  {
    if i > 0 {
      var p := s[k].parent.value;
      AncestorsSuffix(s, rank, p, i - 1);
      assert Ancestors(s, rank, k) == [k] + Ancestors(s, rank, p);
      assert Ancestors(s, rank, k)[i..] == Ancestors(s, rank, p)[i - 1..];
    }
  }

  /** `closest(block, type)`: the nearest block of that type on the way up,
      starting with the block itself. */
  function Closest(s: Store, ghost rank: map<Key, nat>, k: Key, blockType: string): (r: Option<Key>)
    requires Ranked(s, rank) && k in s
    ensures r.Some? ==> r.value in s && s[r.value].blockType == blockType && r.value in Ancestors(s, rank, k)
    ensures r.None? ==> forall a :: a in Ancestors(s, rank, k) ==> s[a].blockType != blockType
    decreases rank[k]
  {
    if s[k].blockType == blockType then Some(k)
    else if HasParentIn(s, k) then Closest(s, rank, s[k].parent.value, blockType)
    else None
  }

  /** The block `closest` finds is the nearest one: no block of the type
      comes before it on the way up. */
  lemma {:induction false} ClosestNearest(s: Store, rank: map<Key, nat>, k: Key, blockType: string)
    requires Ranked(s, rank) && k in s && Closest(s, rank, k, blockType).Some?
    ensures var chain := Ancestors(s, rank, k);
      var j := FindIndex(chain, Closest(s, rank, k, blockType).value);
      0 <= j && forall i :: 0 <= i < j ==> s[chain[i]].blockType != blockType
    decreases rank[k]
  {
    if s[k].blockType != blockType {
      var p := s[k].parent.value;
      ClosestNearest(s, rank, p, blockType);
      var chain, up := Ancestors(s, rank, k), Ancestors(s, rank, p);
      var r := Closest(s, rank, p, blockType).value;
      assert chain == [k] + up && chain[1..] == up;
      assert FindIndex(chain, r) == FindIndex(up, r) + 1;
      forall i | 0 < i < FindIndex(chain, r) ensures s[chain[i]].blockType != blockType {
        assert chain[i] == up[i - 1];
      }
    }
  }

  /** `findOutMostBlock`: the top of the chain of parents. */
  function FindOutMostBlock(s: Store, ghost rank: map<Key, nat>, k: Key): (r: Key)
    requires Ranked(s, rank) && k in s
    ensures r in s && !HasParentIn(s, r)
    ensures r == Ancestors(s, rank, k)[|Ancestors(s, rank, k)| - 1]
    decreases rank[k]
  {
    if HasParentIn(s, k) then FindOutMostBlock(s, rank, s[k].parent.value) else k
  }

  /** The sibling sequence a block belongs to: its parent's `children`, or
      the top-level `blocks` when it has no parent block. */
  function SiblingsOf(d: Doc, k: Key): seq<Key>
    requires k in d.store
  {
    if HasParentIn(d.store, k) then d.store[d.store[k].parent.value].children else d.blocks
  }

  /** The block before `k` in `a`, by position. */
  function PrevIn(a: seq<Key>, k: Key): Option<Key> {
    var i := FindIndex(a, k);
    if i <= 0 then None else Some(a[i - 1])
  }

  /** The block after `k` in `a`, by position. */
  function NextIn(a: seq<Key>, k: Key): Option<Key> {
    var i := FindIndex(a, k);
    if i == -1 || i == |a| - 1 then None else Some(a[i + 1])
  }

  ghost predicate Distinct(a: seq<Key>) {
    forall i, j :: 0 <= i < j < |a| ==> a[i] != a[j]
  }

  /** `a` lists distinct blocks of the table, each with parent `owner`. */
  ghost predicate Listed(s: Store, a: seq<Key>, owner: Option<Key>) {
    && Distinct(a)
    && forall i :: 0 <= i < |a| ==> a[i] in s && s[a[i]].parent == owner
  }

  /** Records are stored under their own key. */
  ghost predicate KeysMatch(s: Store) {
    forall k {:trigger s[k].key} :: k in s ==> s[k].key == k
  }

  /** A parent, when named, is a block of the table other than the block itself. */
  ghost predicate ParentsPresent(s: Store) {
    forall k {:trigger s[k].parent} :: k in s && s[k].parent.Some? ==> s[k].parent.value in s && s[k].parent.value != k
  }

  /** Every `children` sequence lists distinct children of its owner. */
  ghost predicate ChildrenListed(s: Store) {
    forall p {:trigger s[p].children} :: p in s ==> Listed(s, s[p].children, Some(p))
  }

  /** Every block appears in its own sibling sequence. */
  ghost predicate SelfListed(d: Doc) {
    forall k {:trigger SiblingsOf(d, k)} :: k in d.store ==> k in SiblingsOf(d, k)
  }

  /** Everything but the sibling links is consistent. */
  ghost predicate Structured(d: Doc) {
    && KeysMatch(d.store)
    && ParentsPresent(d.store)
    && Listed(d.store, d.blocks, None)
    && ChildrenListed(d.store)
    && SelfListed(d)
  }

  /** The links agree with the sequences: every block's `preSibling` and
      `nextSibling` are its neighbours in its sibling sequence. */
  ghost predicate LinksAgree(d: Doc) {
    && (forall k {:trigger PrevIn(SiblingsOf(d, k), k)} :: k in d.store ==> d.store[k].preSibling == PrevIn(SiblingsOf(d, k), k))
    && (forall k {:trigger NextIn(SiblingsOf(d, k), k)} :: k in d.store ==> d.store[k].nextSibling == NextIn(SiblingsOf(d, k), k))
  }

  ghost predicate WellLinked(d: Doc) {
    Structured(d) && LinksAgree(d)
  }

  /** The sibling links recomputed from the sequences alone. */
  ghost function Relink(d: Doc): Doc {
    Doc(map k | k in d.store :: Relinked(d, k), d.blocks)
  }

  /** One record with its links recomputed. */
  ghost function Relinked(d: Doc, k: Key): Block
    requires k in d.store
  {
    d.store[k].(preSibling := PrevIn(SiblingsOf(d, k), k), nextSibling := NextIn(SiblingsOf(d, k), k))
  }

  /** Two documents that differ at most in their sibling links. */
  ghost predicate SameShape(d: Doc, e: Doc) {
    && d.blocks == e.blocks
    && d.store.Keys == e.store.Keys
    && forall k :: k in d.store ==>
         && d.store[k].key == e.store[k].key
         && d.store[k].blockType == e.store[k].blockType
         && d.store[k].text == e.store[k].text
         && d.store[k].functionType == e.store[k].functionType
         && d.store[k].parent == e.store[k].parent
         && d.store[k].children == e.store[k].children
         && d.store[k].editable == e.store[k].editable
  }

  /** The owner of a block's sibling sequence: its parent block, or `None`
      for a top-level block. */
  function Owner(d: Doc, k: Key): Option<Key>
    requires k in d.store
  {
    if HasParentIn(d.store, k) then d.store[k].parent else None
  }

  lemma ShapeSiblings(d: Doc, e: Doc, k: Key)
    requires SameShape(d, e) && k in d.store
    ensures SiblingsOf(d, k) == SiblingsOf(e, k) && Owner(d, k) == Owner(e, k)
  {
  }

  lemma ShapeStructured(d: Doc, e: Doc)
    requires SameShape(d, e) && Structured(d)
    ensures Structured(e)
  {
    forall k | k in e.store ensures k in SiblingsOf(e, k) {
      ShapeSiblings(d, e, k);
    }
    forall p | p in e.store ensures Listed(e.store, e.store[p].children, Some(p)) {
      assert Listed(d.store, d.store[p].children, Some(p));
    }
    assert Listed(e.store, e.blocks, None) by {
      assert Listed(d.store, d.blocks, None);
    }
  }

  /** In a distinct sequence, the neighbours found by key are the positional ones. */
  lemma PositionNeighbours(a: seq<Key>, j: nat)
    requires Distinct(a) && j < |a|
    ensures FindIndex(a, a[j]) == j
    ensures PrevIn(a, a[j]) == if j == 0 then None else Some(a[j - 1])
    ensures NextIn(a, a[j]) == if j == |a| - 1 then None else Some(a[j + 1])
  {
    FindIndexDistinct(a, j);
  }

  /** In a distinct sequence, each entry is found at its own position. */
  lemma FindIndexDistinct(a: seq<Key>, j: nat)
    requires Distinct(a) && j < |a|
    ensures FindIndex(a, a[j]) == j
  {
    var i := FindIndex(a, a[j]);
    assert 0 <= i <= j && a[i] == a[j];
  }

  /** A block's sibling sequence lists it and its siblings, all with the same owner. */
  lemma SiblingsListed(d: Doc, k: Key)
    requires Structured(d) && k in d.store
    ensures k in SiblingsOf(d, k)
    ensures Listed(d.store, SiblingsOf(d, k), Owner(d, k))
  {
    if HasParentIn(d.store, k) {
      assert ChildrenListed(d.store);
    }
  }

  /** Every block listed beside `k` has the same sibling sequence as `k`. */
  lemma SiblingsShared(d: Doc, k: Key, j: nat)
    requires Structured(d) && k in d.store && j < |SiblingsOf(d, k)|
    ensures SiblingsOf(d, k)[j] in d.store
    ensures SiblingsOf(d, SiblingsOf(d, k)[j]) == SiblingsOf(d, k)
  {
    SiblingsListed(d, k);
    var b := SiblingsOf(d, k)[j];
    assert d.store[b].parent == Owner(d, k);
  }

  /** The links are mutual: `a.nextSibling` is `b` exactly when `b.preSibling`
      is `a`, and both share one sibling sequence. */
  lemma {:induction false} LinksMutual(d: Doc, a: Key)
    requires WellLinked(d) && a in d.store
    ensures d.store[a].nextSibling.Some? ==>
      var b := d.store[a].nextSibling.value;
      b in d.store && d.store[b].preSibling == Some(a) && SiblingsOf(d, b) == SiblingsOf(d, a)
    ensures d.store[a].preSibling.Some? ==>
      var b := d.store[a].preSibling.value;
      b in d.store && d.store[b].nextSibling == Some(a) && SiblingsOf(d, b) == SiblingsOf(d, a)
  {
    var L := SiblingsOf(d, a);
    var i := FindIndex(L, a);
    assert Distinct(L) && 0 <= i && L[i] == a by {
      SiblingsListed(d, a);
    }
    assert d.store[a].nextSibling == NextIn(L, a) && d.store[a].preSibling == PrevIn(L, a);
    if i + 1 < |L| {
      assert L[i + 1] in d.store && SiblingsOf(d, L[i + 1]) == L by {
        SiblingsShared(d, a, i + 1);
      }
      assert d.store[L[i + 1]].preSibling == PrevIn(L, L[i + 1]);
    }
    if i > 0 {
      assert L[i - 1] in d.store && SiblingsOf(d, L[i - 1]) == L by {
        SiblingsShared(d, a, i - 1);
      }
      assert d.store[L[i - 1]].nextSibling == NextIn(L, L[i - 1]);
    }
    LinksMutualCore(d, L, i);
  }

  /** `LinksMutual` from the links of the block and its two neighbours. */
  lemma LinksMutualCore(d: Doc, L: seq<Key>, i: nat)
    requires Distinct(L) && i < |L| && L[i] in d.store && SiblingsOf(d, L[i]) == L
    requires d.store[L[i]].nextSibling == NextIn(L, L[i]) && d.store[L[i]].preSibling == PrevIn(L, L[i])
    requires i + 1 < |L| ==> L[i + 1] in d.store && SiblingsOf(d, L[i + 1]) == L && d.store[L[i + 1]].preSibling == PrevIn(L, L[i + 1])
    requires i > 0 ==> L[i - 1] in d.store && SiblingsOf(d, L[i - 1]) == L && d.store[L[i - 1]].nextSibling == NextIn(L, L[i - 1])
    ensures var a := L[i]; d.store[a].nextSibling.Some? ==>
      var b := d.store[a].nextSibling.value;
      b in d.store && d.store[b].preSibling == Some(a) && SiblingsOf(d, b) == SiblingsOf(d, a)
    ensures var a := L[i]; d.store[a].preSibling.Some? ==>
      var b := d.store[a].preSibling.value;
      b in d.store && d.store[b].nextSibling == Some(a) && SiblingsOf(d, b) == SiblingsOf(d, a)
  {
    LinksMutualNext(d, L, i);
    LinksMutualPrev(d, L, i);
  }

  /** The forward half of `LinksMutualCore`. */
  lemma LinksMutualNext(d: Doc, L: seq<Key>, i: nat)
    requires Distinct(L) && i < |L| && L[i] in d.store && SiblingsOf(d, L[i]) == L
    requires d.store[L[i]].nextSibling == NextIn(L, L[i])
    requires i + 1 < |L| ==> L[i + 1] in d.store && SiblingsOf(d, L[i + 1]) == L && d.store[L[i + 1]].preSibling == PrevIn(L, L[i + 1])
    ensures var a := L[i]; d.store[a].nextSibling.Some? ==>
      var b := d.store[a].nextSibling.value;
      b in d.store && d.store[b].preSibling == Some(a) && SiblingsOf(d, b) == SiblingsOf(d, a)
  {
    PositionNeighbours(L, i);
    if i + 1 < |L| {
      PositionNeighbours(L, i + 1);
    }
  }

  /** The backward half of `LinksMutualCore`. */
  lemma LinksMutualPrev(d: Doc, L: seq<Key>, i: nat)
    requires Distinct(L) && i < |L| && L[i] in d.store && SiblingsOf(d, L[i]) == L
    requires d.store[L[i]].preSibling == PrevIn(L, L[i])
    requires i > 0 ==> L[i - 1] in d.store && SiblingsOf(d, L[i - 1]) == L && d.store[L[i - 1]].nextSibling == NextIn(L, L[i - 1])
    ensures var a := L[i]; d.store[a].preSibling.Some? ==>
      var b := d.store[a].preSibling.value;
      b in d.store && d.store[b].nextSibling == Some(a) && SiblingsOf(d, b) == SiblingsOf(d, a)
  {
    PositionNeighbours(L, i);
    if i > 0 {
      PositionNeighbours(L, i - 1);
    }
  }

  /** The links derived from the sequences are always consistent. */
  lemma RelinkIsWellLinked(d: Doc)
    requires Structured(d)
    ensures SameShape(d, Relink(d))
    ensures WellLinked(Relink(d))
  {
    var e := Relink(d);
    assert SameShape(d, e);
    ShapeStructured(d, e);
    forall k | k in e.store
      ensures e.store[k].preSibling == PrevIn(SiblingsOf(e, k), k)
      ensures e.store[k].nextSibling == NextIn(SiblingsOf(e, k), k)
    {
      ShapeSiblings(d, e, k);
    }
  }

  /** Documents agreeing on every record are equal. */
  lemma DocExt(d: Doc, e: Doc)
    requires d.blocks == e.blocks && d.store.Keys == e.store.Keys
    requires forall k :: k in d.store ==> d.store[k] == e.store[k]
    ensures d == e
  {
    assert d.store == e.store;
  }

  /** A block whose links already agree keeps its record under `Relink`. */
  lemma RelinkKeepsAgreeing(d: Doc, k: Key)
    requires k in d.store
    requires d.store[k].preSibling == PrevIn(SiblingsOf(d, k), k)
    requires d.store[k].nextSibling == NextIn(SiblingsOf(d, k), k)
    ensures k in Relink(d).store && Relink(d).store[k] == d.store[k]
  {
  }

  /** When the links already agree, recomputing them changes nothing. */
  lemma RelinkOfWellLinked(d: Doc)
    requires WellLinked(d)
    ensures Relink(d) == d
  {
    RelinkAgreesPointwise(d);
    DocExt(Relink(d), d);
  }

  lemma RelinkAgreesPointwise(d: Doc)
    requires WellLinked(d)
    ensures Relink(d).store.Keys == d.store.Keys && Relink(d).blocks == d.blocks
    ensures forall k :: k in Relink(d).store ==> Relink(d).store[k] == d.store[k]
  {
    forall k | k in d.store ensures Relink(d).store[k] == d.store[k] {
      RelinkKeepsAgreeing(d, k);
    }
  }

  /** Two documents of the same shape get the same record for `k` under `Relink`. */
  lemma RelinkSameAt(d: Doc, e: Doc, k: Key)
    requires SameShape(d, e) && k in d.store
    ensures k in Relink(e).store && Relink(d).store[k] == Relink(e).store[k]
  {
    ShapeSiblings(d, e, k);
  }

  lemma RelinkSamePointwise(d: Doc, e: Doc)
    requires SameShape(d, e)
    ensures Relink(d).store.Keys == Relink(e).store.Keys && Relink(d).blocks == Relink(e).blocks
    ensures forall k :: k in Relink(d).store ==> Relink(d).store[k] == Relink(e).store[k]
  {
    forall k | k in d.store ensures Relink(d).store[k] == Relink(e).store[k] {
      RelinkSameAt(d, e, k);
    }
  }

  /** The derived links depend only on what `SameShape` compares. */
  lemma RelinkIgnoresLinks(d: Doc, e: Doc)
    requires SameShape(d, e)
    ensures Relink(d) == Relink(e)
  {
    RelinkSamePointwise(d, e);
    DocExt(Relink(d), Relink(e));
  }

  /** A consistent document is fixed by its shape: two well-linked documents
      that differ at most in their links are equal. */
  lemma WellLinkedUnique(d: Doc, e: Doc)
    requires SameShape(d, e) && WellLinked(d) && WellLinked(e)
    ensures d == e
  {
    RelinkOfWellLinked(d);
    RelinkOfWellLinked(e);
    RelinkIgnoresLinks(d, e);
  }
}
