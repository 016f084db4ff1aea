/**
 * The skill-based reduction of one requirement: the target amount computed
 * from the original-amount snapshot, when the pass writes it, and what it
 * writes.
 */
module Reduction {
  import opened Wrappers
  import opened Text
  import opened Pieces

  /** Mathf.CeilToInt, on exact reals. */
  function Ceil(x: real): (n: int)
    ensures x <= n as real < x + 1.0
  {
    -((-x).Floor)
  }

  lemma CeilOfInt(n: int)
    ensures Ceil(n as real) == n
  {
  }

  lemma CeilMonotone(x: real, y: real)
    requires x <= y
    ensures Ceil(x) <= Ceil(y)
  {
  }

  /** The reduced amount for an original amount and a skill factor: ceil(original * (1 - factor)). */
  function Target(original: int, factor: real): (t: int)
    ensures original as real * (1.0 - factor) <= t as real < original as real * (1.0 - factor) + 1.0
  {
    Ceil(original as real * (1.0 - factor))
  }

  /** A higher skill factor never gives a higher target. */
  lemma TargetMonotone(original: nat, f1: real, f2: real)
    requires f1 <= f2
    ensures Target(original, f2) <= Target(original, f1)
  {
    assert original as real * (1.0 - f2) <= original as real * (1.0 - f1) by {
      assert original as real * (1.0 - f1) - original as real * (1.0 - f2) == original as real * (f2 - f1);
    }
    CeilMonotone(original as real * (1.0 - f2), original as real * (1.0 - f1));
  }

  /** For a factor in [0, 1] the target lies between 0 and the original. */
  lemma TargetBounds(original: nat, factor: real)
    requires 0.0 <= factor <= 1.0
    ensures 0 <= Target(original, factor) <= original
  {
    TargetMonotone(original, 0.0, factor);
    TargetMonotone(original, factor, 1.0);
    CeilOfInt(original);
    CeilOfInt(0);
  }

  /** A piece with 10 of an item and skill factor 0.3 costs ceil(10 * 0.7) = 7. */
  lemma TargetExample()
    ensures Target(10, 0.3) == 7
  {
    assert 10 as real * (1.0 - 0.3) == 7 as real;
    CeilOfInt(7);
  }

  /** Whether the pass writes a slot holding amount: only when it is neither the target nor 1. */
  predicate Writes(amount: int, original: int, factor: real)
  {
    !(amount == Target(original, factor) || amount == 1)
  }

  /** The amount the pass writes: the target floored at 1, or 1 outright for a free build at full skill. */
  function Written(original: int, factor: real, freeAtMax: bool): (n: int)
    ensures n >= 1
    ensures freeAtMax && factor == 1.0 ==> n == 1
    ensures !(freeAtMax && factor == 1.0) && Target(original, factor) >= 1 ==> n == Target(original, factor)
    ensures !(freeAtMax && factor == 1.0) && Target(original, factor) < 1 ==> n == 1
  {
    if freeAtMax && factor == 1.0 then 1
    else if Target(original, factor) < 1 then 1
    else Target(original, factor)
  }

  /** A written amount never exceeds the original when the factor is in [0, 1]. */
  lemma WrittenBounds(original: int, factor: real, freeAtMax: bool)
    requires original >= 1 && 0.0 <= factor <= 1.0
    ensures 1 <= Written(original, factor, freeAtMax) <= original
  {
    TargetBounds(original, factor);
  }

  /** A higher skill factor never gives a higher written amount. */
  lemma WrittenMonotone(original: nat, f1: real, f2: real, freeAtMax: bool)
    requires 0.0 <= f1 <= f2 <= 1.0
    ensures Written(original, f2, freeAtMax) <= Written(original, f1, freeAtMax)
  {
    TargetMonotone(original, f1, f2);
  }

  /** The snapshot amount for a slot, when it has one: its item is not null and is in the snapshot. */
  function OriginalOf(req: Requirement, originals: map<string, int>): Option<int>
  {
    if req.item.Some? && req.item.value in originals then Some(originals[req.item.value]) else None
  }

  /**
   * One slot after the pass: it keeps its item; the pass writes exactly the
   * slots with a snapshot amount that are neither at the target nor at 1,
   * and what it writes is at least 1; every other slot is left as it was.
   */
  function Reduce(req: Requirement, originals: map<string, int>, factor: real, freeAtMax: bool): (r: Requirement)
    ensures r.item == req.item
    ensures WritesSlot(req, originals, factor) ==> r.amount == Written(originals[req.item.value], factor, freeAtMax) >= 1
    ensures !WritesSlot(req, originals, factor) ==> r == req
  {
    match OriginalOf(req, originals)
    case None => req
    case Some(original) =>
      if Writes(req.amount, original, factor) then req.(amount := Written(original, factor, freeAtMax))
      else req
  }

  /** Whether the pass writes this slot (and so sets the no-cost flag). */
  predicate WritesSlot(req: Requirement, originals: map<string, int>, factor: real)
  {
    OriginalOf(req, originals).Some? && Writes(req.amount, OriginalOf(req, originals).value, factor)
  }

  /** All the slots of one piece after the pass. */
  function ReduceAll(reqs: seq<Requirement>, originals: map<string, int>, factor: real, freeAtMax: bool): (r: seq<Requirement>)
    ensures |r| == |reqs|
  {
    if reqs == [] then []
    else ReduceAll(reqs[..|reqs| - 1], originals, factor, freeAtMax) + [Reduce(reqs[|reqs| - 1], originals, factor, freeAtMax)]
  }

  /** Slot by slot: ReduceAll applies Reduce to each slot, and is the only sequence that does. */
  lemma {:induction false} ReduceAllPointwise(reqs: seq<Requirement>, r: seq<Requirement>,
                                              originals: map<string, int>, factor: real, freeAtMax: bool)
    ensures r == ReduceAll(reqs, originals, factor, freeAtMax) <==>
              |r| == |reqs| && forall j :: 0 <= j < |reqs| ==> r[j] == Reduce(reqs[j], originals, factor, freeAtMax)
  {
    if reqs != [] && |r| == |reqs| {
      var n := |reqs| - 1;
      ReduceAllPointwise(reqs[..n], r[..n], originals, factor, freeAtMax);
      var all := ReduceAll(reqs, originals, factor, freeAtMax);
      if forall j :: 0 <= j < |reqs| ==> r[j] == Reduce(reqs[j], originals, factor, freeAtMax) {
        assert r[..n] == ReduceAll(reqs[..n], originals, factor, freeAtMax);
        assert r == r[..n] + [r[n]];
      }
      if r == all {
        forall j | 0 <= j < |reqs| ensures r[j] == Reduce(reqs[j], originals, factor, freeAtMax) {
          if j < n { assert r[j] == r[..n][j]; }
        }
      }
    }
  }

  /** Whether the pass writes some slot of one piece. */
  predicate WritesAny(reqs: seq<Requirement>, originals: map<string, int>, factor: real)
  {
    reqs != [] &&
    (WritesAny(reqs[..|reqs| - 1], originals, factor) || WritesSlot(reqs[|reqs| - 1], originals, factor))
  }

  /** The pass writes some slot of a piece exactly when there is a slot it writes. */
  lemma {:induction false} WritesAnyIff(reqs: seq<Requirement>, originals: map<string, int>, factor: real)
    ensures WritesAny(reqs, originals, factor) <==> exists j :: 0 <= j < |reqs| && WritesSlot(reqs[j], originals, factor)
  {
    if reqs != [] {
      var front := reqs[..|reqs| - 1];
      WritesAnyIff(front, originals, factor);
      if exists j :: 0 <= j < |front| && WritesSlot(front[j], originals, factor) {
        var j :| 0 <= j < |front| && WritesSlot(front[j], originals, factor);
        assert reqs[j] == front[j];
      }
      if exists j :: 0 <= j < |reqs| && WritesSlot(reqs[j], originals, factor) {
        var j :| 0 <= j < |reqs| && WritesSlot(reqs[j], originals, factor);
        if j < |front| { assert front[j] == reqs[j]; }
      }
    }
  }

  /** An amount of 1 is never raised again, whatever the skill factor becomes. */
  lemma OneIsSticky(req: Requirement, originals: map<string, int>, factor: real, freeAtMax: bool)
    requires req.amount == 1
    ensures Reduce(req, originals, factor, freeAtMax) == req
    ensures !WritesSlot(req, originals, factor)
  {
  }

  /**
   * A slot of 10 wood brought to 1 by a free build at full skill stays at 1
   * when the skill drops back to 0, although its target is then 10 again.
   */
  lemma OneIsStickyExample()
    ensures var originals := map["Wood" := 10];
      var atMax := Reduce(Requirement(Some("Wood"), 10), originals, 1.0, true);
      && atMax.amount == 1
      && Target(10, 0.0) == 10
      && Reduce(atMax, originals, 0.0, true).amount == 1
  {
    CeilOfInt(0);
    CeilOfInt(10);
  }

  /**
   * A free build at full skill is never undone slot by slot: a slot that
   * held its snapshot amount is left at 1 (or at 0), and no later pass
   * writes that slot, whatever the skill factor has become.
   */
  lemma FreeBuildNeverUndone(req: Requirement, originals: map<string, int>, factor: real)
    requires req.item.Some? && req.item.value in originals && req.amount == originals[req.item.value]
    ensures !WritesSlot(Reduce(req, originals, 1.0, true), originals, factor)
  {
    var original := originals[req.item.value];
    CeilOfInt(0);
    assert Target(original, 1.0) == 0;
    var r := Reduce(req, originals, 1.0, true);
    if r.amount != 1 {
      assert r == req && original == 0;
      CeilOfInt(0);
      assert original as real * (1.0 - factor) == 0.0;
      assert Target(original, factor) == 0;
    }
  }

  /**
   * Levelling from 99 to 100: the pass at factor 0.99 leaves every slot
   * whose snapshot amount is between 1 and 100 at 1, so the pass at full
   * skill finds nothing to write in it.
   */
  lemma LevelledSlotNotWrittenAtMax(req: Requirement, originals: map<string, int>, freeAtMax: bool)
    requires req.item.Some? && req.item.value in originals ==> 1 <= originals[req.item.value] <= 100
    ensures !WritesSlot(Reduce(req, originals, 0.99, freeAtMax), originals, 1.0)
  {
    var r := Reduce(req, originals, 0.99, freeAtMax);
    if req.item.Some? && req.item.value in originals {
      var original := originals[req.item.value];
      assert 0.0 < original as real * (1.0 - 0.99) <= 1.0;
      assert Target(original, 0.99) == 1;
      assert r.amount == 1;
      OneIsSticky(r, originals, 1.0, freeAtMax);
    }
  }

  /**
   * Free build at full skill does not take effect when the skill is
   * levelled up to it: when every snapshot amount is between 1 and 100, the
   * pass at full skill that follows a pass at 0.99 writes no slot, so the
   * no-cost flag keeps the value the 0.99 pass left.
   */
  lemma FreeBuildAfterLevelling(before: map<Piece, seq<Requirement>>, cache: map<Piece, map<string, int>>,
                                freeAtMax: bool)
    requires forall p, item :: p in cache && item in cache[p] ==> 1 <= cache[p][item] <= 100
    ensures !AnyWrites(ReducedContents(before, cache, 0.99, freeAtMax), cache, 1.0)
  {
    var after := ReducedContents(before, cache, 0.99, freeAtMax);
    forall p | p in after && p in cache && Reducible(p)
      ensures !WritesAny(after[p], cache[p], 1.0)
    {
      ReduceAllPointwise(before[p], after[p], cache[p], 0.99, freeAtMax);
      WritesAnyIff(after[p], cache[p], 1.0);
      forall j | 0 <= j < |after[p]|
        ensures !WritesSlot(after[p][j], cache[p], 1.0)
      {
        LevelledSlotNotWrittenAtMax(before[p][j], cache[p], freeAtMax);
      }
    }
  }

  /**
   * No compounding: a second pass with the same factor leaves every slot as
   * the first pass left it, and writes nothing.
   */
  lemma ReduceIdempotent(req: Requirement, originals: map<string, int>, factor: real, freeAtMax: bool)
    ensures var r := Reduce(req, originals, factor, freeAtMax);
      Reduce(r, originals, factor, freeAtMax) == r && !WritesSlot(r, originals, factor)
  {
  }

  /**
   * Free build at full skill: every slot with a snapshot amount ends at 1,
   * except one that was at 0, which equals its target and stays at 0.
   */
  lemma FreeBuildCollapse(req: Requirement, originals: map<string, int>)
    requires OriginalOf(req, originals).Some?
    ensures Reduce(req, originals, 1.0, true).amount == if req.amount == 0 then 0 else 1
  {
    CeilOfInt(0);
  }

  /** A piece whose slots are all at 1 is never written again, so the no-cost flag keeps its value. */
  lemma AllOnesNeverWritten(reqs: seq<Requirement>, originals: map<string, int>, factor: real)
    requires forall j :: 0 <= j < |reqs| ==> reqs[j].amount == 1
    ensures !WritesAny(reqs, originals, factor)
    ensures ReduceAll(reqs, originals, factor, true) == ReduceAll(reqs, originals, factor, false) == reqs
  {
    WritesAnyIff(reqs, originals, factor);
  }

  /** Reducing a piece's slots twice with the same factor is reducing them once, and the second time writes nothing. */
  lemma {:induction false} ReduceAllIdempotent(reqs: seq<Requirement>, originals: map<string, int>, factor: real, freeAtMax: bool)
    ensures var r := ReduceAll(reqs, originals, factor, freeAtMax);
      ReduceAll(r, originals, factor, freeAtMax) == r && !WritesAny(r, originals, factor)
  {
    if reqs != [] {
      var n := |reqs| - 1;
      var r := ReduceAll(reqs, originals, factor, freeAtMax);
      ReduceAllIdempotent(reqs[..n], originals, factor, freeAtMax);
      ReduceIdempotent(reqs[n], originals, factor, freeAtMax);
      assert r[..n] == ReduceAll(reqs[..n], originals, factor, freeAtMax);
    }
  }

  /** The stacks and piles whose cost the pass never changes, by normalised name. */
  const NonReducible: set<string> := {
    "stone_pile", "coal_pile", "blackmarble_pile", "grausten_pile", "skull_pile",
    "treasure_pile", "wood_stack", "wood_fine_stack", "wood_core_stack",
    "wood_yggdrasil_stack", "blackwood_stack", "bone_stack", "treasure_stack"}

  /** The pass skips the stacks and piles, by normalised name. */
  predicate Reducible(piece: Piece)
  {
    Normalise(piece.name) !in NonReducible
  }

  /**
   * The contents of the cached pieces' arrays after a whole pass over them:
   * every reducible piece rewritten slot by slot, the others as they were.
   */
  function ReducedContents(before: map<Piece, seq<Requirement>>, cache: map<Piece, map<string, int>>,
                           factor: real, freeAtMax: bool): (after: map<Piece, seq<Requirement>>)
    ensures after.Keys == before.Keys
    ensures forall p :: p in after ==> |after[p]| == |before[p]|
    ensures forall p :: p in after && p !in cache ==> after[p] == before[p]
    ensures forall p :: p in after && !Reducible(p) ==> after[p] == before[p]
  {
    map p | p in before :: if p in cache && Reducible(p) then ReduceAll(before[p], cache[p], factor, freeAtMax) else before[p]
  }

  /** Whether a whole pass writes some slot of some reducible cached piece. */
  ghost predicate AnyWrites(before: map<Piece, seq<Requirement>>, cache: map<Piece, map<string, int>>, factor: real)
  {
    exists p :: p in before && p in cache && Reducible(p) && WritesAny(before[p], cache[p], factor)
  }

  /**
   * How far a pass over the cached pieces has got, on the contents of their
   * arrays before it and now, with reducible the cached pieces that are not
   * stacks or piles: the reducible pieces not in todo are rewritten, every
   * other piece is as it was, and writers are the pieces done of which the
   * pass wrote some slot.
   */
  ghost predicate PassedOver(before: map<Piece, seq<Requirement>>, now: map<Piece, seq<Requirement>>,
                             cache: map<Piece, map<string, int>>, reducible: set<Piece>,
                             todo: set<Piece>, writers: set<Piece>, factor: real, freeAtMax: bool)
  {
    && before.Keys == cache.Keys && now.Keys == cache.Keys && todo <= cache.Keys
    && (forall p :: p in cache && p !in todo && p in reducible ==> now[p] == ReduceAll(before[p], cache[p], factor, freeAtMax))
    && (forall p :: p in cache && (p in todo || p !in reducible) ==> now[p] == before[p])
    && (forall p :: p in writers ==> p in cache && p !in todo)
    && (forall p :: p in cache && p !in todo ==> (p in writers <==> p in reducible && WritesAny(before[p], cache[p], factor)))
  }

  /** Handling one more piece of todo, as the pass does, moves it out of todo and keeps PassedOver. */
  lemma PassedOverStep(before: map<Piece, seq<Requirement>>, now: map<Piece, seq<Requirement>>,
                       next: map<Piece, seq<Requirement>>, cache: map<Piece, map<string, int>>, reducible: set<Piece>,
                       todo: set<Piece>, writers: set<Piece>, piece: Piece, slots: seq<Requirement>, wrote: bool,
                       factor: real, freeAtMax: bool)
    requires PassedOver(before, now, cache, reducible, todo, writers, factor, freeAtMax) && piece in todo && now[piece] == slots
    requires next == now[piece := if piece in reducible then ReduceAll(slots, cache[piece], factor, freeAtMax) else slots]
    requires wrote == (piece in reducible && WritesAny(slots, cache[piece], factor))
    ensures PassedOver(before, next, cache, reducible, todo - {piece}, if wrote then writers + {piece} else writers,
                       factor, freeAtMax)
  {
    var rest := todo - {piece};
    var done := if wrote then writers + {piece} else writers;
    assert slots == before[piece];
    forall p | p in cache && p !in rest && p in reducible
      ensures next[p] == ReduceAll(before[p], cache[p], factor, freeAtMax)
    {
      if p != piece { assert p !in todo; }
    }
    forall p | p in cache && p !in rest
      ensures p in done <==> p in reducible && WritesAny(before[p], cache[p], factor)
    {
      if p != piece { assert p !in todo; }
    }
  }

  /** A pass that has handled every piece has produced ReducedContents. */
  lemma PassedOverContents(before: map<Piece, seq<Requirement>>, now: map<Piece, seq<Requirement>>,
                           cache: map<Piece, map<string, int>>, reducible: set<Piece>, writers: set<Piece>,
                           factor: real, freeAtMax: bool)
    requires PassedOver(before, now, cache, reducible, {}, writers, factor, freeAtMax)
    requires forall p :: p in cache ==> (p in reducible <==> Reducible(p))
    ensures now == ReducedContents(before, cache, factor, freeAtMax)
  {
  }

  /** A pass that has handled every piece has written some slot exactly when AnyWrites says so. */
  lemma PassedOverWrites(before: map<Piece, seq<Requirement>>, now: map<Piece, seq<Requirement>>,
                         cache: map<Piece, map<string, int>>, reducible: set<Piece>, writers: set<Piece>,
                         factor: real, freeAtMax: bool)
    requires PassedOver(before, now, cache, reducible, {}, writers, factor, freeAtMax)
    requires forall p :: p in cache ==> (p in reducible <==> Reducible(p))
    ensures writers != {} <==> AnyWrites(before, cache, factor)
  {
    if writers != {} {
      var p :| p in writers;
      assert p in before && p in cache && Reducible(p) && WritesAny(before[p], cache[p], factor);
    }
    if AnyWrites(before, cache, factor) {
      var p :| p in before && p in cache && Reducible(p) && WritesAny(before[p], cache[p], factor);
      assert p in writers;
    }
  }

  /**
   * A second pass with the same skill factor (two skill events in a row,
   * say) leaves every array as the first pass left it and writes no slot,
   * so the no-cost flag keeps its value too.
   */
  lemma PassIdempotent(before: map<Piece, seq<Requirement>>, cache: map<Piece, map<string, int>>,
                       factor: real, freeAtMax: bool)
    ensures var after := ReducedContents(before, cache, factor, freeAtMax);
      ReducedContents(after, cache, factor, freeAtMax) == after && !AnyWrites(after, cache, factor)
  {
    var after := ReducedContents(before, cache, factor, freeAtMax);
    var again := ReducedContents(after, cache, factor, freeAtMax);
    forall p | p in before && p in cache && Reducible(p)
      ensures ReduceAll(after[p], cache[p], factor, freeAtMax) == after[p] && !WritesAny(after[p], cache[p], factor)
    {
      ReduceAllIdempotent(before[p], cache[p], factor, freeAtMax);
    }
    assert again.Keys == after.Keys;
    assert forall p | p in again :: again[p] == after[p];
  }

  /** The stack and pile names are lower-case letters and underscores only. */
  lemma NonReduciblePlain(prefab: string)
    requires prefab in NonReducible
    ensures NoUpper(prefab) && Trimmed(prefab)
  {
  }

  /**
   * Every stack and pile is skipped by the pass, whether it is met under
   * its prefab name or as an object instantiated from the prefab.
   */
  lemma PilesAndStacksNotReducible(p: Piece, prefab: string)
    requires prefab in NonReducible
    requires p.name == prefab || p.name == prefab + CloneSuffix
    ensures !Reducible(p)
  {
    NonReduciblePlain(prefab);
    if p.name == prefab {
      NormaliseOfPlain(prefab);
    } else {
      NormaliseOfClone(prefab);
    }
  }
}
