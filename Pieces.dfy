/**
 * The game objects the mod reads and patches: build pieces, their resource
 * requirements, and the piece tables (build menus) that list them.
 */
module Pieces {
  import opened Wrappers

  /**
   * One resource slot of a piece: the item it asks for (None stands for a
   * null item reference; Some carries the item's name) and how many.
   */
  datatype Requirement = Requirement(item: Option<string>, amount: int)

  /**
   * A buildable piece. Its identity is the object's identity (the mod keys
   * its dictionaries by reference); only the amounts inside its requirement
   * array ever change.
   */
  class Piece {
    const name: string
    const category: string
    /** The name of the crafting station the piece needs, if any. */
    const craftingStation: Option<string>
    /** The DLC the piece belongs to; empty when none. */
    const dlc: string
    const resources: array<Requirement>

    constructor (name: string, category: string, craftingStation: Option<string>, dlc: string, resources: seq<Requirement>)
      ensures this.name == name && this.category == category
      ensures this.craftingStation == craftingStation && this.dlc == dlc
      ensures fresh(this.resources) && this.resources[..] == resources
    {
      this.name := name;
      this.category := category;
      this.craftingStation := craftingStation;
      this.dlc := dlc;
      this.resources := new Requirement[|resources|](i requires 0 <= i < |resources| => resources[i]);
    }
  }

  /**
   * A piece table: its object name and the objects it lists, in order. A null
   * entry stands both for a null object and for an object that has no Piece
   * component: the mod skips the two alike.
   */
  datatype PieceTable = PieceTable(name: string, pieces: seq<Piece?>)

  /**
   * The original-amount snapshot of one piece: item name to amount, for
   * every requirement whose item is not null, a later slot for the same item
   * overwriting an earlier one.
   */
  function Snapshot(reqs: seq<Requirement>): (m: map<string, int>)
    ensures forall item :: item in m ==> exists j :: 0 <= j < |reqs| && reqs[j].item == Some(item) && reqs[j].amount == m[item]
  {
    if reqs == [] then map[]
    else
      var m := Snapshot(reqs[..|reqs| - 1]);
      var last := reqs[|reqs| - 1];
      if last.item.Some? then m[last.item.value := last.amount] else m
  }

  /** The snapshot has an entry for an item exactly when some slot asks for it. */
  lemma {:induction false} SnapshotKeys(reqs: seq<Requirement>, name: string)
    ensures name in Snapshot(reqs) <==> exists j :: 0 <= j < |reqs| && reqs[j].item == Some(name)
  {
    if reqs != [] {
      var front := reqs[..|reqs| - 1];
      SnapshotKeys(front, name);
      if exists j :: 0 <= j < |reqs| && reqs[j].item == Some(name) {
        var j :| 0 <= j < |reqs| && reqs[j].item == Some(name);
        if j < |reqs| - 1 { assert front[j] == reqs[j]; }
      }
      if exists j :: 0 <= j < |front| && front[j].item == Some(name) {
        var j :| 0 <= j < |front| && front[j].item == Some(name);
        assert reqs[j] == front[j];
      }
    }
  }

  /** The amount recorded for an item is the one in the last slot that asks for it. */
  lemma {:induction false} SnapshotLastWins(reqs: seq<Requirement>, j: nat)
    requires j < |reqs| && reqs[j].item.Some?
    requires forall k :: j < k < |reqs| ==> reqs[k].item != reqs[j].item
    ensures reqs[j].item.value in Snapshot(reqs)
    ensures Snapshot(reqs)[reqs[j].item.value] == reqs[j].amount
  {
    var front := reqs[..|reqs| - 1];
    if j < |reqs| - 1 {
      assert front[j] == reqs[j];
      SnapshotLastWins(front, j);
    }
  }

  /** The pieces of a sequence of tables, in table order. */
  function Flatten(tables: seq<PieceTable>): (s: seq<Piece?>)
    ensures forall i, p :: 0 <= i < |tables| && p in tables[i].pieces ==> p in s
    ensures forall p :: p in s ==> exists i :: 0 <= i < |tables| && p in tables[i].pieces
  {
    if tables == [] then []
    else Flatten(tables[..|tables| - 1]) + tables[|tables| - 1].pieces
  }

  /** The categories of the non-null pieces of s. */
  function CategoriesIn(s: seq<Piece?>): set<string>
  {
    set k | 0 <= k < |s| && s[k] != null :: s[k].category
  }

  lemma CategoriesInAppend(s: seq<Piece?>, p: Piece?)
    ensures CategoriesIn(s + [p]) == CategoriesIn(s) + (if p == null then {} else {p.category})
  {
    var t := s + [p];
    forall c | c in CategoriesIn(t) ensures c in CategoriesIn(s) || (p != null && c == p.category) {
      var k :| 0 <= k < |t| && t[k] != null && t[k].category == c;
      if k < |s| { assert s[k] == t[k]; }
    }
    forall c | c in CategoriesIn(s) ensures c in CategoriesIn(t) {
      var k :| 0 <= k < |s| && s[k] != null && s[k].category == c;
      assert t[k] == s[k];
    }
    if p != null { assert t[|s|] == p; }
  }

  /** The names of the first n tables. */
  function NamesUpTo(tables: seq<PieceTable>, n: nat): set<string>
    requires n <= |tables|
  {
    if n == 0 then {} else NamesUpTo(tables, n - 1) + {tables[n - 1].name}
  }

  lemma {:induction false} NamesUpToIs(tables: seq<PieceTable>, n: nat)
    requires n <= |tables|
    ensures NamesUpTo(tables, n) == set k | 0 <= k < n :: tables[k].name
  {
    if n > 0 {
      NamesUpToIs(tables, n - 1);
    }
  }

  /** Table i is the first table carrying its name: the one the mod caches. */
  predicate FirstOfName(tables: seq<PieceTable>, i: int)
  {
    0 <= i < |tables| && tables[i].name !in NamesUpTo(tables, i)
  }

  /** Table i is the first of its name exactly when no earlier table carries its name. */
  lemma FirstOfNameIs(tables: seq<PieceTable>, i: nat)
    requires i < |tables|
    ensures FirstOfName(tables, i) <==> forall k :: 0 <= k < i ==> tables[k].name != tables[i].name
  {
    NamesUpToIs(tables, i);
    if tables[i].name in NamesUpTo(tables, i) {
      var k :| 0 <= k < i && tables[k].name == tables[i].name;
    }
  }


  /** Some first-of-name table before index n lists p. */
  ghost predicate ListedBefore(tables: seq<PieceTable>, p: Piece, n: int)
  {
    exists k :: 0 <= k < n && FirstOfName(tables, k) && p in tables[k].pieces
  }

  /** Table i is the first of the cached (first-of-name) tables that lists p. */
  ghost predicate OwnedBy(tables: seq<PieceTable>, p: Piece, i: int)
  {
    FirstOfName(tables, i) && p in tables[i].pieces && !ListedBefore(tables, p, i)
  }

  /**
   * The piece-to-table bindings after going through objs for the table
   * called name: each non-null piece not bound yet is bound to name, in
   * order; earlier bindings stay.
   */
  function Bound(bound: map<Piece, string>, objs: seq<Piece?>, name: string): map<Piece, string>
  {
    if objs == [] then bound
    else
      var b := Bound(bound, objs[..|objs| - 1], name);
      var obj := objs[|objs| - 1];
      if obj != null && obj !in b then b[obj := name] else b
  }

  /** Bound binds p when it was bound before or is listed; an old binding stays, a new one is to name. */
  lemma {:induction false} BoundAt(bound: map<Piece, string>, objs: seq<Piece?>, name: string, p: Piece)
    ensures p in Bound(bound, objs, name) <==> p in bound || p in objs
    ensures p in bound ==> Bound(bound, objs, name)[p] == bound[p]
    ensures p in objs && p !in bound ==> Bound(bound, objs, name)[p] == name
  {
    if objs != [] {
      var front := objs[..|objs| - 1];
      BoundAt(bound, front, name, p);
      assert objs == front + [objs[|objs| - 1]];
    }
  }

  /**
   * The name-to-table cache after the first n tables: a table is cached
   * under its name unless a table of that name is cached already.
   */
  function Cached(tables: seq<PieceTable>, n: nat): map<string, PieceTable>
    requires n <= |tables|
  {
    if n == 0 then map[]
    else
      var c := Cached(tables, n - 1);
      var t := tables[n - 1];
      if t.name in c then c else c[t.name := t]
  }

  /**
   * The piece-to-table bindings after the first n tables: a table cached
   * when it is reached binds its pieces as Bound says; a skipped one binds
   * nothing.
   */
  function Bindings(tables: seq<PieceTable>, n: nat): map<Piece, string>
    requires n <= |tables|
  {
    if n == 0 then map[]
    else
      var t := tables[n - 1];
      if t.name in Cached(tables, n - 1) then Bindings(tables, n - 1)
      else Bound(Bindings(tables, n - 1), t.pieces, t.name)
  }

  /** The cache holds one entry per table name. */
  lemma {:induction false} CachedKeys(tables: seq<PieceTable>, n: nat)
    requires n <= |tables|
    ensures Cached(tables, n).Keys == NamesUpTo(tables, n)
  {
    if n > 0 {
      CachedKeys(tables, n - 1);
    }
  }

  /** Table n - 1 is cached when it is reached exactly when it is the first of its name. */
  lemma CachedFirst(tables: seq<PieceTable>, n: nat)
    requires 0 < n <= |tables|
    ensures tables[n - 1].name !in Cached(tables, n - 1) <==> FirstOfName(tables, n - 1)
  {
    CachedKeys(tables, n - 1);
  }

  /** The first table of each name is the one cached under it. */
  lemma {:induction false} CachedFirstValue(tables: seq<PieceTable>, n: nat, k: nat)
    requires k < n <= |tables| && FirstOfName(tables, k)
    ensures tables[k].name in Cached(tables, n) && Cached(tables, n)[tables[k].name] == tables[k]
  {
    if k == n - 1 {
      CachedFirst(tables, n);
    } else {
      CachedFirstValue(tables, n - 1, k);
    }
  }

  /** The pieces bound are exactly those some cached table lists. */
  lemma {:induction false} BindingsKeys(tables: seq<PieceTable>, n: nat, p: Piece)
    requires n <= |tables|
    ensures p in Bindings(tables, n) <==> ListedBefore(tables, p, n)
  {
    if n > 0 {
      var t := tables[n - 1];
      BindingsKeys(tables, n - 1, p);
      CachedFirst(tables, n);
      ListedBeforeLast(tables, p, n);
      if FirstOfName(tables, n - 1) {
        BoundAt(Bindings(tables, n - 1), t.pieces, t.name, p);
      }
    }
  }

  /** Going past table n - 1 lists p when it already was, or when that table is cached and lists it. */
  lemma ListedBeforeLast(tables: seq<PieceTable>, p: Piece, n: nat)
    requires 0 < n <= |tables|
    ensures ListedBefore(tables, p, n) <==>
              ListedBefore(tables, p, n - 1) || (FirstOfName(tables, n - 1) && p in tables[n - 1].pieces)
  {
    if ListedBefore(tables, p, n - 1) {
      var k :| 0 <= k < n - 1 && FirstOfName(tables, k) && p in tables[k].pieces;
      assert 0 <= k < n && FirstOfName(tables, k) && p in tables[k].pieces;
    }
  }

  /** A piece is bound to the first cached table that lists it. */
  lemma {:induction false} BindingsOwner(tables: seq<PieceTable>, n: nat, p: Piece, k: nat)
    requires k < n <= |tables| && OwnedBy(tables, p, k)
    ensures p in Bindings(tables, n) && Bindings(tables, n)[p] == tables[k].name
  {
    var t := tables[n - 1];
    var b := Bindings(tables, n - 1);
    CachedFirst(tables, n);
    BoundAt(b, t.pieces, t.name, p);
    if k == n - 1 {
      BindingsKeys(tables, n - 1, p);
    } else {
      BindingsOwner(tables, n - 1, p, k);
    }
  }
}
