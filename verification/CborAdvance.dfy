/** Skipping whole items: cbor_value_advance. */
module CborAdvance {
  import opened CborSpec
  import opened CborParse
  import opened CborItems

  const MAX_RECURSIONS: nat := 1024

  /** How deep containers nest in an item. */
  function Depth(item: Item): nat {
    match item
    case Arr(items, _) => 1 + DepthAll(items)
    case Map(items, _) => 1 + DepthAll(items)
    case _ => 0
  }

  function DepthAll(items: seq<Item>): nat {
    if |items| == 0 then 0
    else var d, e := Depth(items[0]), DepthAll(items[1..]); if d > e then d else e
  }

  /** A container is one deeper than its deepest child, an empty one has depth 1, anything else 0. */
  lemma DepthIs(item: Item)
    ensures !item.Arr? && !item.Map? ==> Depth(item) == 0
    ensures item.Arr? || item.Map? ==>
      && (forall k :: 0 <= k < |item.items| ==> Depth(item.items[k]) < Depth(item))
      && (if item.items == [] then Depth(item) == 1
          else exists k :: 0 <= k < |item.items| && Depth(item.items[k]) + 1 == Depth(item))
  {
    if item.Arr? || item.Map? { DeepestOf(item.items); }
  }

  lemma {:induction false} DeepestOf(items: seq<Item>)
    ensures forall k :: 0 <= k < |items| ==> Depth(items[k]) <= DepthAll(items)
    ensures items != [] ==> exists k :: 0 <= k < |items| && Depth(items[k]) == DepthAll(items)
    ensures items == [] ==> DepthAll(items) == 0
  {
    if items != [] {
      var rest := items[1..];
      DeepestOf(rest);
      forall k | 0 <= k < |items| ensures Depth(items[k]) <= DepthAll(items) {
        if k > 0 { assert items[k] == rest[k - 1]; }
      }
      if Depth(items[0]) < DepthAll(rest) {
        var k :| 0 <= k < |rest| && Depth(rest[k]) == DepthAll(rest);
        assert items[k + 1] == rest[k];
      }
    }
  }

  /** Either the first of ts was passed over, or it nests too deep. */
  ghost predicate Skipped(it: CborValue, from: nat, before: nat, ts: seq<Item>, err: CborError, level: nat)
    requires |ts| > 0
    reads it
  {
    if Depth(ts[0]) <= level then Passed(it, from, before, ts, err) else err == NestingTooDeep
  }

  /** advance_recursive. On every buffer it returns, never moves the pointer back or past the
      end, and consumes at least one byte when it succeeds. Before the encodings of ts it passes
      over exactly the first of them, unless that nests deeper than nestingLevel. */
  method AdvanceRecursive(it: CborValue, nestingLevel: nat, ghost ts: seq<Item>) returns (err: CborError)
    requires it.Ready() && it.remaining > 0
    modifies it
    ensures old(it.ptr) <= it.ptr <= |it.data|
    ensures err == NoError ==> old(it.ptr) < it.ptr && it.Ready()
    ensures |ts| > 0 && old(Before(it, ts)) ==> Skipped(it, old(it.ptr), old(it.remaining), ts, err, nestingLevel)
    decreases |it.data| - it.ptr, 2
  {
    if |ts| > 0 && Before(it, ts) && it.typ != ARRAY && it.typ != MAP { FixedIsFlat(it, ts); }
    if IsFixed(it.typ) {
      err := PassFixed(it, ts);
      return;
    }
    if it.typ != ARRAY && it.typ != MAP {
      var content;
      err, content := PassString(it, UINT32_MAX, ts);
      return;
    }
    err := AdvanceContainer(it, nestingLevel, ts);
  }

  /** The part of advance_recursive for arrays and maps. */
  method AdvanceContainer(it: CborValue, nestingLevel: nat, ghost ts: seq<Item>) returns (err: CborError)
    requires it.Ready() && it.remaining > 0 && (it.typ == ARRAY || it.typ == MAP)
    modifies it
    ensures old(it.ptr) <= it.ptr <= |it.data|
    ensures err == NoError ==> old(it.ptr) < it.ptr && it.Ready()
    ensures |ts| > 0 && old(Before(it, ts)) ==> Skipped(it, old(it.ptr), old(it.remaining), ts, err, nestingLevel)
    decreases |it.data| - it.ptr, 1
  {
    ghost var good := |ts| > 0 && Before(it, ts);
    if good { ContainerPayload(it, ts); }
    if nestingLevel == 0 {
      return NestingTooDeep;
    }
    var recursed;
    err, recursed := AdvanceChildren(it, nestingLevel - 1, if good then ts[0].items else []);
    if err != NoError {
      return;
    }
    err := PassContainer(it, recursed, ts);
  }

  /** Enter the container and pass over its children. */
  method AdvanceChildren(it: CborValue, level: nat, ghost items: seq<Item>)
    returns (err: CborError, recursed: CborValue)
    requires it.Ready() && it.remaining > 0 && (it.typ == ARRAY || it.typ == MAP)
    ensures fresh(recursed) && recursed.data == it.data && it.ptr <= recursed.ptr <= |it.data|
    ensures err == NoError ==> it.ptr < recursed.ptr && recursed.typ == INVALID
    ensures Holds(it, items) && DepthAll(items) > level ==> err == NestingTooDeep
    ensures Holds(it, items) && DepthAll(items) <= level ==>
      err == NoError && recursed.ptr == ContentEnd(it, items)
    decreases |it.data| - it.ptr, 0
  {
    err, recursed := it.EnterContainer();
    if Holds(it, items) { Entered(it, recursed, items, err); }
    if err != NoError {
      return;
    }
    err := AdvanceAll(recursed, level, items);
  }

  /** The loop of advance_recursive. */
  method AdvanceAll(it: CborValue, level: nat, ghost items: seq<Item>) returns (err: CborError)
    requires it.Ready()
    modifies it
    ensures old(it.ptr) <= it.ptr <= |it.data|
    ensures err == NoError ==> it.remaining == 0 && it.typ == INVALID
    ensures old(Before(it, items)) && DepthAll(items) > level ==> err == NestingTooDeep
    ensures old(Before(it, items)) && DepthAll(items) <= level ==>
      err == NoError && it.ptr == old(it.ptr + Left(it.remaining, items))
    decreases |it.data| - it.ptr, 3
  {
    err := NoError;
    ghost var good, rest := Before(it, items), items;
    while it.remaining != 0
      invariant it.Ready() && old(it.ptr) <= it.ptr && err == NoError
      invariant good ==> Before(it, rest) && it.ptr + Left(it.remaining, rest) == old(it.ptr + Left(it.remaining, items))
      invariant good ==> (DepthAll(rest) > level <==> DepthAll(items) > level)
      decreases |it.data| - it.ptr
    {
      ghost var from, before := it.ptr, it.remaining;
      err := AdvanceRecursive(it, level, rest);
      if err != NoError {
        return;
      }
      if good { PassedLeft(it, from, before, rest, err); }
      rest := if good then rest[1..] else rest;
    }
  }

  /** cbor_value_advance, which must not be called at the end of a container: its assertion on the
      type would stop the device there. */
  method Advance(it: CborValue, ghost ts: seq<Item>) returns (err: CborError)
    requires it.Ready() && it.remaining > 0
    modifies it
    ensures old(it.ptr) <= it.ptr <= |it.data|
    ensures err == NoError ==> old(it.ptr) < it.ptr && it.Ready()
    ensures |ts| > 0 && old(Before(it, ts)) ==> Skipped(it, old(it.ptr), old(it.remaining), ts, err, 1024)
  {
    err := AdvanceRecursive(it, MAX_RECURSIONS, ts);
  }

  lemma FixedIsFlat(it: CborValue, ts: seq<Item>)
    requires it.Ready() && |ts| > 0 && Before(it, ts) && it.typ != ARRAY && it.typ != MAP
    ensures Depth(ts[0]) == 0
  {
    KnownType(it, ts);
  }
}
