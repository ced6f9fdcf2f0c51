/**
  The C rules (`#[repr(C)]`) that place a struct's members in memory: each
  member starts at the next offset that is a multiple of its alignment, the
  struct's alignment is the largest of its members', and its size is rounded
  up to that alignment. A union is as large as its largest member, rounded
  up the same way. `Render` gives the bytes a struct occupies, with every
  padding byte zero.
 */
module Layout {
  import opened Endian

  /** The alignments C types have on this target: powers of two up to 16. */
  type Alignment = a: nat | a == 1 || a == 2 || a == 4 || a == 8 || a == 16 witness 1

  /** A C member type: its size in bytes and its alignment. */
  datatype Field = Field(size: nat, align: Alignment)

  /** The first multiple of `align` at or after `offset` (see `AlignUpAligned`). */
  function AlignUp(offset: nat, align: Alignment): (r: nat)
    ensures offset <= r < offset + align
  {
    var rem := offset % align;
    if rem == 0 then offset else offset + (align - rem)
  }

  /** Padding up to the next multiple of `align` lands on one; each alignment is checked with its divisor as a constant. */
  lemma AlignUpAligned(offset: nat, align: Alignment)
    ensures AlignUp(offset, align) % align == 0
  {
    if align == 1 {
      assert AlignUp(offset, 1) % 1 == 0;
    } else if align == 2 {
      assert AlignUp(offset, 2) % 2 == 0;
    } else if align == 4 {
      assert AlignUp(offset, 4) % 4 == 0;
    } else if align == 8 {
      assert AlignUp(offset, 8) % 8 == 0;
    } else {
      assert AlignUp(offset, 16) % 16 == 0;
    }
  }

  /** The strictest alignment among `fields`, 1 when there are none. */
  function MaxAlign(fields: seq<Field>): (a: Alignment)
    ensures forall i :: 0 <= i < |fields| ==> fields[i].align <= a
    ensures fields == [] ==> a == 1
  {
    if fields == [] then 1
    else
      var rest := MaxAlign(fields[1..]);
      if fields[0].align > rest then fields[0].align else rest
  }

  /** The largest size among `fields`, 0 when there are none. */
  function MaxSize(fields: seq<Field>): (s: nat)
    ensures forall i :: 0 <= i < |fields| ==> fields[i].size <= s
    ensures fields == [] ==> s == 0
  {
    if fields == [] then 0
    else
      var rest := MaxSize(fields[1..]);
      if fields[0].size > rest then fields[0].size else rest
  }

  /** Some member has exactly the strictest alignment. */
  lemma {:induction false} MaxAlignAttained(fields: seq<Field>)
    requires fields != []
    ensures exists i :: 0 <= i < |fields| && fields[i].align == MaxAlign(fields)
  {
    if |fields| > 1 && fields[0].align <= MaxAlign(fields[1..]) {
      MaxAlignAttained(fields[1..]);
      var i :| 0 <= i < |fields[1..]| && fields[1..][i].align == MaxAlign(fields[1..]);
      assert fields[i + 1].align == MaxAlign(fields);
    } else {
      assert fields[0].align == MaxAlign(fields);
    }
  }

  /** Some member has exactly the largest size. */
  lemma {:induction false} MaxSizeAttained(fields: seq<Field>)
    requires fields != []
    ensures exists i :: 0 <= i < |fields| && fields[i].size == MaxSize(fields)
  {
    if |fields| > 1 && fields[0].size <= MaxSize(fields[1..]) {
      MaxSizeAttained(fields[1..]);
      var i :| 0 <= i < |fields[1..]| && fields[1..][i].size == MaxSize(fields[1..]);
      assert fields[i + 1].size == MaxSize(fields);
    } else {
      assert fields[0].size == MaxSize(fields);
    }
  }

  /** The offset of each member when the first may start at `cursor`. */
  function OffsetsFrom(fields: seq<Field>, cursor: nat): (offs: seq<nat>)
    ensures |offs| == |fields|
  {
    if fields == [] then []
    else
      var o := AlignUp(cursor, fields[0].align);
      [o] + OffsetsFrom(fields[1..], o + fields[0].size)
  }

  /** The offset just past the last member. */
  function EndFrom(fields: seq<Field>, cursor: nat): (end: nat)
    ensures cursor <= end
  {
    if fields == [] then cursor
    else EndFrom(fields[1..], AlignUp(cursor, fields[0].align) + fields[0].size)
  }

  /** A member placed in front of others: it starts at the next multiple of its alignment and the rest follow it. */
  lemma EndFromCons(f: Field, rest: seq<Field>, cursor: nat)
    ensures EndFrom([f] + rest, cursor) == EndFrom(rest, AlignUp(cursor, f.align) + f.size)
  {
    assert ([f] + rest)[0] == f;
    assert ([f] + rest)[1..] == rest;
  }

  /** The struct's alignment is no larger than any bound on its members' alignments. */
  lemma {:induction false} MaxAlignAtMost(fields: seq<Field>, bound: nat)
    requires bound >= 1
    requires forall i :: 0 <= i < |fields| ==> fields[i].align <= bound
    ensures MaxAlign(fields) <= bound
  {
    if fields != [] {
      assert forall i :: 0 <= i < |fields[1..]| ==> fields[1..][i] == fields[i + 1];
      MaxAlignAtMost(fields[1..], bound);
    }
  }

  /**
    The placement rule: each member starts after the end of the one before
    it and ends before the struct's end.
   */
  lemma {:induction false} OffsetsFromPlace(fields: seq<Field>, cursor: nat, i: nat)
    requires i < |fields|
    ensures var offs := OffsetsFrom(fields, cursor);
            && cursor <= offs[i]
            && offs[i] + fields[i].size <= EndFrom(fields, cursor)
            && (i + 1 < |fields| ==> offs[i] + fields[i].size <= offs[i + 1])
  {
    var o := AlignUp(cursor, fields[0].align);
    var next := o + fields[0].size;
    assert OffsetsFrom(fields, cursor) == [o] + OffsetsFrom(fields[1..], next);
    if i == 0 {
      if 1 < |fields| {
        OffsetsFromPlace(fields[1..], next, 0);
      }
    } else {
      OffsetsFromPlace(fields[1..], next, i - 1);
    }
  }

  /** Each member starts at a multiple of its alignment. */
  lemma {:induction false} OffsetAligned(fields: seq<Field>, cursor: nat, i: nat)
    requires i < |fields|
    ensures OffsetsFrom(fields, cursor)[i] % fields[i].align == 0
  {
    var o := AlignUp(cursor, fields[0].align);
    var next := o + fields[0].size;
    assert OffsetsFrom(fields, cursor) == [o] + OffsetsFrom(fields[1..], next);
    if i == 0 {
      AlignUpAligned(cursor, fields[0].align);
    } else {
      OffsetAligned(fields[1..], next, i - 1);
    }
  }

  function Offsets(fields: seq<Field>): seq<nat>
  {
    OffsetsFrom(fields, 0)
  }

  /** `size_of` a struct with these members: the least multiple of its alignment at or after the end of its last member. */
  function SizeOf(fields: seq<Field>): (size: nat)
    ensures size % MaxAlign(fields) == 0
    ensures EndFrom(fields, 0) <= size < EndFrom(fields, 0) + MaxAlign(fields)
  {
    AlignUpAligned(EndFrom(fields, 0), MaxAlign(fields));
    AlignUp(EndFrom(fields, 0), MaxAlign(fields))
  }

  /** Every member of a struct lies inside it, at an offset that is a multiple of its alignment. */
  lemma MemberInside(fields: seq<Field>, i: nat)
    requires i < |fields|
    ensures Offsets(fields)[i] % fields[i].align == 0
    ensures Offsets(fields)[i] + fields[i].size <= SizeOf(fields)
  {
    OffsetsFromPlace(fields, 0, i);
    OffsetAligned(fields, 0, i);
  }

  /** A struct used as a member of another: its own alignment, and its own size. */
  function StructField(fields: seq<Field>): (f: Field)
    ensures f.size % f.align == 0
    ensures f.align == MaxAlign(fields) && EndFrom(fields, 0) <= f.size < EndFrom(fields, 0) + f.align
  {
    Field(SizeOf(fields), MaxAlign(fields))
  }

  /**
    A union used as a member: aligned as its strictest variant, and as large
    as its largest variant rounded up to that alignment.
   */
  function UnionField(variants: seq<Field>): (f: Field)
    ensures f.size % f.align == 0
    ensures forall i :: 0 <= i < |variants| ==> variants[i].size <= f.size && variants[i].align <= f.align
    ensures f.align == MaxAlign(variants) && f.size < MaxSize(variants) + f.align
  {
    AlignUpAligned(MaxSize(variants), MaxAlign(variants));
    Field(AlignUp(MaxSize(variants), MaxAlign(variants)), MaxAlign(variants))
  }

  /** `values` gives one byte string of the right size for every member. */
  predicate Fits(fields: seq<Field>, values: seq<seq<byte>>)
  {
    |values| == |fields| && forall i :: 0 <= i < |fields| ==> |values[i]| == fields[i].size
  }

  /**
    `offs` places each of `values` at or after `cursor`, every one starting
    at or after the end of the one before.
   */
  predicate Placed(values: seq<seq<byte>>, offs: seq<nat>, cursor: nat)
    decreases |values|
  {
    && |offs| == |values|
    && (values == [] || (cursor <= offs[0] && Placed(values[1..], offs[1..], offs[0] + |values[0]|)))
  }

  /** The bytes from `cursor` to the end of the last member: zero padding before each member, then the member. */
  function Lay(values: seq<seq<byte>>, offs: seq<nat>, cursor: nat): (bytes: seq<byte>)
    requires Placed(values, offs, cursor)
    decreases |values|
  {
    if values == [] then []
    else Zeros(offs[0] - cursor) + values[0] + Lay(values[1..], offs[1..], offs[0] + |values[0]|)
  }

  /** Byte `k` of member `i` lands at the member's offset plus `k`. */
  lemma {:induction false} LayAt(values: seq<seq<byte>>, offs: seq<nat>, cursor: nat, i: nat, k: nat)
    requires Placed(values, offs, cursor)
    requires i < |values| && k < |values[i]|
    ensures cursor <= offs[i] && offs[i] - cursor + k < |Lay(values, offs, cursor)|
    ensures Lay(values, offs, cursor)[offs[i] - cursor + k] == values[i][k]
  {
    var head := Zeros(offs[0] - cursor) + values[0];
    var next := offs[0] + |values[0]|;
    if i == 0 {
      assert head[offs[0] - cursor + k] == values[0][k];
    } else {
      LayAt(values[1..], offs[1..], next, i - 1, k);
      assert values[1..][i - 1] == values[i] && offs[1..][i - 1] == offs[i];
    }
  }

  lemma {:induction false} LayZero(values: seq<seq<byte>>, offs: seq<nat>, cursor: nat)
    requires Placed(values, offs, cursor)
    requires forall i :: 0 <= i < |values| ==> AllZero(values[i])
    ensures AllZero(Lay(values, offs, cursor))
  {
    if values != [] {
      assert forall i :: 0 <= i < |values| - 1 ==> values[1..][i] == values[i + 1];
      LayZero(values[1..], offs[1..], offs[0] + |values[0]|);
      assert AllZero(values[0]);
    }
  }

  /** The layout's offsets place members of the declared sizes. */
  lemma {:induction false} OffsetsPlace(fields: seq<Field>, values: seq<seq<byte>>, cursor: nat)
    requires Fits(fields, values)
    ensures Placed(values, OffsetsFrom(fields, cursor), cursor)
  {
    if fields != [] {
      var o := AlignUp(cursor, fields[0].align);
      var next := o + fields[0].size;
      FitsRest(fields, values);
      OffsetsPlace(fields[1..], values[1..], next);
      assert OffsetsFrom(fields, cursor)[1..] == OffsetsFrom(fields[1..], next);
    }
  }

  /** Members laid out at the layout's offsets end where the layout ends. */
  lemma {:induction false} LayLength(fields: seq<Field>, values: seq<seq<byte>>, cursor: nat)
    requires Fits(fields, values)
    requires Placed(values, OffsetsFrom(fields, cursor), cursor)
    ensures |Lay(values, OffsetsFrom(fields, cursor), cursor)| == EndFrom(fields, cursor) - cursor
  {
    if fields != [] {
      var o := AlignUp(cursor, fields[0].align);
      var next := o + fields[0].size;
      var offs := OffsetsFrom(fields, cursor);
      FitsRest(fields, values);
      assert offs[1..] == OffsetsFrom(fields[1..], next);
      LayLength(fields[1..], values[1..], next);
      assert |Lay(values, offs, cursor)| == (o - cursor) + fields[0].size + |Lay(values[1..], offs[1..], next)|;
    }
  }

  lemma FitsRest(fields: seq<Field>, values: seq<seq<byte>>)
    requires Fits(fields, values) && fields != []
    ensures Fits(fields[1..], values[1..]) && |values[0]| == fields[0].size
  {
    assert forall k :: 1 <= k < |fields| ==> fields[1..][k - 1] == fields[k] && values[1..][k - 1] == values[k];
  }

  /** The bytes a struct occupies: each member at its offset, every padding byte zero. */
  function Render(fields: seq<Field>, values: seq<seq<byte>>): (image: seq<byte>)
    requires Fits(fields, values)
    ensures |image| == SizeOf(fields)
  {
    OffsetsPlace(fields, values, 0);
    LayLength(fields, values, 0);
    var body := Lay(values, Offsets(fields), 0);
    body + Zeros(SizeOf(fields) - |body|)
  }

  /** Every member can be read back from the image at the offset the layout gives it. */
  lemma RenderAt(fields: seq<Field>, values: seq<seq<byte>>, i: nat)
    requires Fits(fields, values)
    requires i < |fields|
    ensures Offsets(fields)[i] + fields[i].size <= |Render(fields, values)|
    ensures Render(fields, values)[Offsets(fields)[i]..Offsets(fields)[i] + fields[i].size] == values[i]
  {
    MemberInside(fields, i);
    OffsetsPlace(fields, values, 0);
    var at := Offsets(fields)[i];
    var image := Render(fields, values);
    var body := Lay(values, Offsets(fields), 0);
    forall k | 0 <= k < fields[i].size
      ensures image[at + k] == values[i][k]
    {
      LayAt(values, Offsets(fields), 0, i, k);
      assert image[at + k] == body[at + k];
    }
  }

  /** When every member is zero, so is every byte of the struct. */
  lemma RenderZero(fields: seq<Field>, values: seq<seq<byte>>)
    requires Fits(fields, values)
    requires forall i :: 0 <= i < |values| ==> AllZero(values[i])
    ensures AllZero(Render(fields, values))
  {
    OffsetsPlace(fields, values, 0);
    LayZero(values, Offsets(fields), 0);
  }

  /** A struct whose every byte is zero has every member zero. */
  lemma ZeroImageMember(fields: seq<Field>, values: seq<seq<byte>>, i: nat)
    requires Fits(fields, values)
    requires i < |fields| && AllZero(Render(fields, values))
    ensures AllZero(values[i])
  {
    RenderAt(fields, values, i);
    var at := Offsets(fields)[i];
    var image := Render(fields, values);
    forall k | 0 <= k < |values[i]|
      ensures values[i][k] == 0
    {
      assert values[i][k] == image[at..at + fields[i].size][k] == image[at + k];
    }
  }
}
