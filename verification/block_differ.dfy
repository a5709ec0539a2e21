/**
 * The block differ, `expandMatrixFieldDiffs`: two Matrix-style block
 * collections are compared position by position, and every difference is
 * reported under a label such as `body — Block 2 (image): caption`.  A
 * sub-field that itself holds blocks is expanded recursively while depth
 * remains, and otherwise reported as one opaque pair.
 *
 * The functions below follow the loops of the source one iteration at a
 * time (`Positions` is the `for` loop over positions, `AttributeSteps` and
 * `SubFieldSteps` the two inner `foreach` loops); the method
 * `ExpandMatrixFieldDiffs` runs the loops and is proved to compute `Expand`.
 */
module BlockDiffer {
  import opened OrderedMap
  import opened PhpValue
  import opened ValueEquality

  /** One reported difference: `['current' => ..., 'remote' => ...]`. */
  datatype Pair = Pair(current: Value, remote: Value)

  /** The labelled differences, in PHP array order. */
  type Diffs = seq<(string, Pair)>

  /** The block attributes compared besides `fields`, in the order they are checked. */
  const Attributes: seq<string> := ["title", "slug", "enabled", "collapsed"]

  /** The text between a label and a block number: " — Block ". */
  const BlockWord: string := " \U{2014} Block "

  function Max(a: nat, b: nat): nat
  {
    if a < b then b else a
  }

  /** `is_array($v) ? array_values($v) : []` */
  function Blocks(v: Value): seq<Value>
  {
    if v.Arr? then Values(v.entries) else []
  }

  /** `$blocks[$i] ?? null` */
  function BlockAt(bs: seq<Value>, i: nat): Value
  {
    if i < |bs| then bs[i] else Null
  }

  /** `is_array($b) ? ($b['type'] ?? '?') : '?'`: never null. */
  function RawType(b: Value): (t: Value)
    ensures t != Null
  {
    if b.Arr? && Lookup(b.entries, "type") != Null then Lookup(b.entries, "type") else Str("?")
  }

  /** The type as a string: a string as is, another scalar cast, anything else "?". */
  function TypeName(raw: Value): string
  {
    if raw.Str? then raw.s else if IsScalar(raw) then CastToString(raw) else "?"
  }

  /** The block's `fields` when it is an array, and `[]` otherwise. */
  function BlockFields(b: Value): seq<(string, Value)>
  {
    if b.Arr? && Lookup(b.entries, "fields").Arr? then Lookup(b.entries, "fields").entries else []
  }

  /** `(is_array($b) && array_key_exists($k, $b)) ? $b[$k] : null` */
  function Attribute(b: Value, k: string): Value
  {
    if b.Arr? then Lookup(b.entries, k) else Null
  }

  /** `"{label} — Block {i+1} ("`, the start of every label for position `i`. */
  function BlockHead(handle: string, i: nat): string
  {
    handle + BlockWord + NatToString(i + 1) + " ("
  }

  /** `"{label} — Block {i+1} (type)"` */
  function TypeLabel(handle: string, i: nat): string
  {
    BlockHead(handle, i) + "type)"
  }

  /** `"{label} — Block {i+1} ({typeLabel})"` */
  function BlockPrefix(handle: string, i: nat, typeLabel: string): string
  {
    BlockHead(handle, i) + typeLabel + ")"
  }

  /** `"{blockPrefix}: {key}"` */
  function SubLabel(blockPrefix: string, key: string): string
  {
    blockPrefix + ": " + key
  }

  /** The display type of a position: the current block's, unless that is "?". */
  function DisplayType(cb: Value, rb: Value): string
  {
    var cType := TypeName(RawType(cb));
    if cType != "?" then cType else TypeName(RawType(rb))
  }

  /** What `expandMatrixFieldDiffs($label, $c, $r, $depth)` returns. */
  function Expand(handle: string, c: Value, r: Value, depth: int): Diffs
    decreases depth, 3, 0
  {
    var cs, rs := Blocks(c), Blocks(r);
    Positions(handle, cs, rs, depth, Max(|cs|, |rs|))
  }

  /** `$out` after the first `n` iterations of the loop over positions. */
  function Positions(handle: string, cs: seq<Value>, rs: seq<Value>, depth: int, n: nat): Diffs
    decreases depth, 2, n
  {
    if n == 0 then []
    else PositionStep(Positions(handle, cs, rs, depth, n - 1), handle, cs, rs, n - 1, depth)
  }

  /** The iteration for position `i`: `$currentBlocks[$i] ?? null` against `$remoteBlocks[$i] ?? null`. */
  function PositionStep(out: Diffs, handle: string, cs: seq<Value>, rs: seq<Value>, i: nat, depth: int): Diffs
    decreases depth, 1, 2
  {
    BlockStep(out, handle, i, BlockAt(cs, i), BlockAt(rs, i), depth)
  }

  /** One iteration of the loop over positions: the type, then the attributes and the sub-fields. */
  function BlockStep(out: Diffs, handle: string, i: nat, cb: Value, rb: Value, depth: int): Diffs
    decreases depth, 1, 1
  {
    BlockRest(TypeStep(out, handle, i, cb, rb), BlockPrefix(handle, i, DisplayType(cb, rb)), cb, rb, depth)
  }

  /** The `(type)` entry, written when the two type names differ. */
  function TypeStep(out: Diffs, handle: string, i: nat, cb: Value, rb: Value): Diffs
  {
    var cRaw, rRaw := RawType(cb), RawType(rb);
    if TypeName(cRaw) != TypeName(rRaw) then Put(out, TypeLabel(handle, i), Pair(cRaw, rRaw)) else out
  }

  /** The attribute loop, then the loop over the union of both blocks' sub-field handles. */
  function BlockRest(typed: Diffs, prefix: string, cb: Value, rb: Value, depth: int): Diffs
    decreases depth, 1, 0
  {
    var attributed := AttributeSteps(typed, prefix, cb, rb, |Attributes|);
    var cf, rf := BlockFields(cb), BlockFields(rb);
    var handles := UnionKeys(cf, rf);
    SubFieldSteps(attributed, prefix, cf, rf, handles, depth, |handles|)
  }

  /** The loop over `title`, `slug`, `enabled`, `collapsed`, after `n` of them. */
  function AttributeSteps(out: Diffs, prefix: string, cb: Value, rb: Value, n: nat): Diffs
    requires n <= |Attributes|
  {
    if n == 0 then out
    else AttributeStep(AttributeSteps(out, prefix, cb, rb, n - 1), prefix, cb, rb, Attributes[n - 1])
  }

  function AttributeStep(out: Diffs, prefix: string, cb: Value, rb: Value, k: string): Diffs
  {
    var cv, rv := Attribute(cb, k), Attribute(rb, k);
    if ValueChanged(cv, rv) then Put(out, SubLabel(prefix, k), Pair(cv, rv)) else out
  }

  /** The loop over the union of both blocks' sub-field handles, after `n` of them. */
  function SubFieldSteps(out: Diffs, prefix: string, cf: seq<(string, Value)>, rf: seq<(string, Value)>,
                         handles: seq<string>, depth: int, n: nat): Diffs
    requires n <= |handles|
    decreases depth, 0, n + 2
  {
    if n == 0 then out
    else SubFieldStep(SubFieldSteps(out, prefix, cf, rf, handles, depth, n - 1), prefix, cf, rf, handles[n - 1], depth)
  }

  /**
   * One sub-field: skipped when unchanged; expanded one level deeper when
   * depth remains and a side holds blocks; otherwise reported as the opaque pair.
   */
  function SubFieldStep(out: Diffs, prefix: string, cf: seq<(string, Value)>, rf: seq<(string, Value)>,
                        h: string, depth: int): Diffs
    decreases depth, 0, 1
  {
    var cv, rv := Lookup(cf, h), Lookup(rf, h);
    if !ValueChanged(cv, rv) then out
    else if depth > 0 && (IsMatrixLike(cv) || IsMatrixLike(rv)) then MergedExpansion(out, SubLabel(prefix, h), cv, rv, depth - 1)
    else Put(out, SubLabel(prefix, h), Pair(cv, rv))
  }

  /**
   * A value holding blocks, expanded to `depth` under `key` and merged into
   * `out`; when the expansion is empty, the opaque pair under `key` instead.
   */
  function MergedExpansion(out: Diffs, key: string, cv: Value, rv: Value, depth: int): Diffs
    decreases depth, 4
  {
    var nested := Expand(key, cv, rv, depth);
    var merged := MergeAll(out, nested);
    if nested == [] then Put(merged, key, Pair(cv, rv)) else merged
  }

  /** `expandMatrixFieldDiffs`: the loops of the source, proved to compute `Expand`. */
  method ExpandMatrixFieldDiffs(fieldHandle: string, current: Value, remote: Value, depth: int) returns (out: Diffs)
    ensures out == Expand(fieldHandle, current, remote, depth)
    decreases depth, 4
  {
    var currentBlocks := Blocks(current);
    var remoteBlocks := Blocks(remote);
    out := [];
    var maxIndex := Max(|currentBlocks|, |remoteBlocks|);
    var i := 0;
    while i < maxIndex
      invariant 0 <= i <= maxIndex
      invariant out == Positions(fieldHandle, currentBlocks, remoteBlocks, depth, i)
    {
      out := DiffPosition(out, fieldHandle, currentBlocks, remoteBlocks, i, depth);
      i := i + 1;
    }
  }

  /** The body of the loop over positions: compares the two blocks at position `i`. */
  method DiffPosition(out0: Diffs, fieldHandle: string, currentBlocks: seq<Value>, remoteBlocks: seq<Value>, i: nat, depth: int)
    returns (out: Diffs)
    ensures out == PositionStep(out0, fieldHandle, currentBlocks, remoteBlocks, i, depth)
    decreases depth, 3
  {
    var cBlock := BlockAt(currentBlocks, i);
    var rBlock := BlockAt(remoteBlocks, i);
    out := out0;
    var cTypeRaw := RawType(cBlock);
    var rTypeRaw := RawType(rBlock);
    var cType := TypeName(cTypeRaw);
    var rType := TypeName(rTypeRaw);
    if cType != rType {
      out := Put(out, TypeLabel(fieldHandle, i), Pair(cTypeRaw, rTypeRaw));
    }
    assert out == TypeStep(out0, fieldHandle, i, cBlock, rBlock);
    var typed := out;
    var cFields := BlockFields(cBlock);
    var rFields := BlockFields(rBlock);
    var typeLabel := if cType != "?" then cType else rType;
    var blockPrefix := BlockPrefix(fieldHandle, i, typeLabel);
    out := DiffAttributes(out, blockPrefix, cBlock, rBlock);
    out := DiffSubFields(out, blockPrefix, cFields, rFields, UnionKeys(cFields, rFields), depth);
    assert out == BlockRest(typed, blockPrefix, cBlock, rBlock, depth);
  }

  /** The loop over the block attributes. */
  method DiffAttributes(out0: Diffs, blockPrefix: string, cBlock: Value, rBlock: Value) returns (out: Diffs)
    ensures out == AttributeSteps(out0, blockPrefix, cBlock, rBlock, |Attributes|)
  {
    out := out0;
    var a := 0;
    while a < |Attributes|
      invariant 0 <= a <= |Attributes|
      invariant out == AttributeSteps(out0, blockPrefix, cBlock, rBlock, a)
    {
      var bk := Attributes[a];
      var cv := Attribute(cBlock, bk);
      var rv := Attribute(rBlock, bk);
      if ValueChanged(cv, rv) {
        out := Put(out, SubLabel(blockPrefix, bk), Pair(cv, rv));
      }
      a := a + 1;
    }
  }

  /** The loop over the union of both blocks' sub-field handles. */
  method DiffSubFields(out0: Diffs, blockPrefix: string, cFields: seq<(string, Value)>, rFields: seq<(string, Value)>,
                       handles: seq<string>, depth: int) returns (out: Diffs)
    ensures out == SubFieldSteps(out0, blockPrefix, cFields, rFields, handles, depth, |handles|)
    decreases depth, 2
  {
    out := out0;
    var j := 0;
    while j < |handles|
      invariant 0 <= j <= |handles|
      invariant out == SubFieldSteps(out0, blockPrefix, cFields, rFields, handles, depth, j)
    {
      out := DiffSubField(out, blockPrefix, cFields, rFields, handles[j], depth);
      j := j + 1;
    }
  }

  /** The body of the loop over sub-field handles. */
  method DiffSubField(out0: Diffs, blockPrefix: string, cFields: seq<(string, Value)>, rFields: seq<(string, Value)>,
                      subHandle: string, depth: int) returns (out: Diffs)
    ensures out == SubFieldStep(out0, blockPrefix, cFields, rFields, subHandle, depth)
    decreases depth, 1
  {
    out := out0;
    var cv := Lookup(cFields, subHandle);
    var rv := Lookup(rFields, subHandle);
    if ValueChanged(cv, rv) {
      var subKey := SubLabel(blockPrefix, subHandle);
      if depth > 0 && (IsMatrixLike(cv) || IsMatrixLike(rv)) {
        out := MergeExpansion(out, subKey, cv, rv, depth - 1);
      } else {
        out := Put(out, subKey, Pair(cv, rv));
      }
    }
  }

  /** Expands a value holding blocks and merges the result, falling back on the opaque pair. */
  method MergeExpansion(out0: Diffs, key: string, cv: Value, rv: Value, depth: int) returns (out: Diffs)
    ensures out == MergedExpansion(out0, key, cv, rv, depth)
    decreases depth, 5
  {
    var nested := ExpandMatrixFieldDiffs(key, cv, rv, depth);
    out := MergeInto(out0, nested);
    if nested == [] {
      out := Put(out, key, Pair(cv, rv));
    }
  }
}
