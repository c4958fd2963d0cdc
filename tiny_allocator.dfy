/**
 * The three-slot frame pool of `mem::page::temp_page` (`TinyAllocator`).
 *
 * The pool holds at most three frames drawn from another allocator when it is
 * made. It hands them out lowest slot first and takes frames back into the
 * lowest empty slot.
 */
module TinyPool {
  import opened Machine
  import opened Frames

  /** The position of the first occupied slot, or |s| when every slot is empty. */
  function FirstOccupied(s: seq<Option<Frame>>): (k: nat)
    ensures k <= |s|
    ensures k < |s| ==> s[k].Some?
    ensures forall j | 0 <= j < k :: s[j].None?
    decreases |s|
  {
    if |s| == 0 then 0
    else if s[0].Some? then 0
    else 1 + FirstOccupied(s[1..])
  }

  /** The position of the first empty slot, or |s| when every slot is occupied. */
  function FirstEmpty(s: seq<Option<Frame>>): (k: nat)
    ensures k <= |s|
    ensures k < |s| ==> s[k].None?
    ensures forall j | 0 <= j < k :: s[j].Some?
    decreases |s|
  {
    if |s| == 0 then 0
    else if s[0].None? then 0
    else 1 + FirstEmpty(s[1..])
  }

  /** The frames the slots hold. */
  function HeldFrames(s: seq<Option<Frame>>): multiset<Frame>
    decreases |s|
  {
    if |s| == 0 then multiset{}
    else SlotFrames(s[0]) + HeldFrames(s[1..])
  }

  /** The frames of the occupied slots, lowest slot first. */
  function HeldInOrder(s: seq<Option<Frame>>): (r: seq<Frame>)
    ensures |r| <= |s|
    decreases |s|
  {
    if |s| == 0 then []
    else (if s[0].Some? then [s[0].value] else []) + HeldInOrder(s[1..])
  }

  /**
   * Slots filled by three successive `allocate_frame` calls on `outer` from
   * cursor `lo`: the frames, lowest slot first, are the ones the calls hand
   * out, and a slot is `None` only once `outer` has nothing left.
   */
  predicate FilledFrom(outer: InitialFrameAllocator, lo: int, s: seq<Option<Frame>>)
    requires |s| == 3
  {
    (s[0].None? ==> s[1].None?) && (s[1].None? ==> s[2].None?)
    && outer.DrawnFrom(lo, HeldInOrder(s))
    && (s[2].None? ==> outer.NoneAvailable(outer.Cursor(lo, HeldInOrder(s), |HeldInOrder(s)|), FRAME_LIMIT))
  }

  /** The ordered frames are the pool's frames. */
  lemma {:induction false} HeldInOrderFrames(s: seq<Option<Frame>>)
    ensures multiset(HeldInOrder(s)) == HeldFrames(s)
    decreases |s|
  {
    if |s| > 0 {
      HeldInOrderFrames(s[1..]);
    }
  }

  /** Slots that are occupied up to the first empty one hold their frames in slot order. */
  lemma HeldOfFilled(a: Option<Frame>, b: Option<Frame>, c: Option<Frame>)
    requires a.None? ==> b.None?
    requires b.None? ==> c.None?
    ensures HeldInOrder([a, b, c]) ==
      if a.None? then [] else if b.None? then [a.value]
      else if c.None? then [a.value, b.value] else [a.value, b.value, c.value]
  {
    var s := [a, b, c];
    assert s[1..] == [b, c] && [b, c][1..] == [c] && [c][1..] == [];
    assert HeldInOrder([c]) == (if c.Some? then [c.value] else []);
  }

  /** Three draws, each from the cursor the one before left, fill the slots in order. */
  lemma ThreeDraws(outer: InitialFrameAllocator, lo: int, c1: int, c2: int, a: Option<Frame>, b: Option<Frame>, c: Option<Frame>)
    requires a.None? ==> b.None?
    requires b.None? ==> c.None?
    requires a.Some? ==> outer.NextDraw(lo, a.value) && c1 == a.value.number + 1
    requires a.None? ==> outer.NoneAvailable(lo, FRAME_LIMIT)
    requires b.Some? ==> outer.NextDraw(c1, b.value) && c2 == b.value.number + 1
    requires b.None? ==> outer.NoneAvailable(c1, FRAME_LIMIT)
    requires c.Some? ==> outer.NextDraw(c2, c.value)
    requires c.None? ==> outer.NoneAvailable(c2, FRAME_LIMIT)
    ensures FilledFrom(outer, lo, [a, b, c])
  {
    HeldOfFilled(a, b, c);
    outer.DrawnFromEmpty(lo);
    if a.Some? {
      outer.DrawnFromAppend(lo, [], a.value);
      assert [] + [a.value] == [a.value];
      if b.Some? {
        outer.DrawnFromAppend(lo, [a.value], b.value);
        assert [a.value] + [b.value] == [a.value, b.value];
        if c.Some? {
          outer.DrawnFromAppend(lo, [a.value, b.value], c.value);
          assert [a.value, b.value] + [c.value] == [a.value, b.value, c.value];
        }
      }
    }
  }

  /** The frame `allocate_frame` hands out: the one in the first occupied slot. */
  function Drawn(s: seq<Option<Frame>>): Option<Frame>
  {
    var k := FirstOccupied(s);
    if k < |s| then s[k] else None
  }

  /** The slots after `allocate_frame`: the first occupied slot emptied. */
  function Taken(s: seq<Option<Frame>>): seq<Option<Frame>>
  {
    var k := FirstOccupied(s);
    if k < |s| then s[k := None] else s
  }

  /** The slots after `deallocate_frame(f)`: the first empty slot filled. */
  function Given(s: seq<Option<Frame>>, f: Frame): seq<Option<Frame>>
  {
    var k := FirstEmpty(s);
    if k < |s| then s[k := Some(f)] else s
  }

  function SlotFrames(v: Option<Frame>): multiset<Frame>
  {
    if v.Some? then multiset{v.value} else multiset{}
  }

  /** Overwriting one slot trades its frame for the new one. */
  lemma {:induction false} HeldFramesUpdate(s: seq<Option<Frame>>, k: nat, v: Option<Frame>)
    requires k < |s|
    ensures HeldFrames(s[k := v]) + SlotFrames(s[k]) == HeldFrames(s) + SlotFrames(v)
    decreases |s|
  {
    if k > 0 {
      HeldFramesUpdate(s[1..], k - 1, v);
      assert s[k := v][1..] == s[1..][k - 1 := v];
      assert s[k := v][0] == s[0];
      assert s[1..][k - 1] == s[k];
      calc {
        HeldFrames(s[k := v]) + SlotFrames(s[k]);
        SlotFrames(s[0]) + (HeldFrames(s[1..][k - 1 := v]) + SlotFrames(s[1..][k - 1]));
        SlotFrames(s[0]) + (HeldFrames(s[1..]) + SlotFrames(v));
      }
    } else {
      assert s[k := v][1..] == s[1..];
    }
  }

  lemma {:induction false} HeldFramesEmpty(s: seq<Option<Frame>>)
    ensures HeldFrames(s) == multiset{} <==> forall j | 0 <= j < |s| :: s[j].None?
    decreases |s|
  {
    if |s| > 0 {
      HeldFramesEmpty(s[1..]);
      assert forall j | 1 <= j < |s| :: s[j] == s[1..][j - 1];
    }
  }

  lemma {:induction false} HeldFramesSize(s: seq<Option<Frame>>)
    ensures |HeldFrames(s)| <= |s|
    ensures |HeldFrames(s)| == |s| <==> forall j | 0 <= j < |s| :: s[j].Some?
    decreases |s|
  {
    if |s| > 0 {
      HeldFramesSize(s[1..]);
      assert forall j | 1 <= j < |s| :: s[j] == s[1..][j - 1];
    }
  }

  /** Allocation removes the handed-out frame from the pool, or finds the pool empty. */
  lemma TakenFrames(s: seq<Option<Frame>>)
    ensures FirstOccupied(s) == |s| <==> HeldFrames(s) == multiset{}
    ensures FirstOccupied(s) < |s| ==>
      HeldFrames(Taken(s)) + multiset{s[FirstOccupied(s)].value} == HeldFrames(s)
  {
    HeldFramesEmpty(s);
    if FirstOccupied(s) < |s| {
      HeldFramesUpdate(s, FirstOccupied(s), None);
    }
  }

  /** Deallocation adds the frame to the pool, or finds the pool full. */
  lemma GivenFrames(s: seq<Option<Frame>>, f: Frame)
    ensures FirstEmpty(s) == |s| <==> |HeldFrames(s)| == |s|
    ensures FirstEmpty(s) < |s| ==> HeldFrames(Given(s, f)) == HeldFrames(s) + multiset{f}
  {
    HeldFramesSize(s);
    if FirstEmpty(s) < |s| {
      HeldFramesUpdate(s, FirstEmpty(s), Some(f));
    }
  }

  /** Handing a frame out and taking it straight back leaves the pool holding the same frames. */
  lemma TakeThenGive(s: seq<Option<Frame>>)
    requires FirstOccupied(s) < |s|
    ensures FirstEmpty(Taken(s)) < |s|
    ensures HeldFrames(Given(Taken(s), s[FirstOccupied(s)].value)) == HeldFrames(s)
  {
    var k := FirstOccupied(s);
    TakenFrames(s);
    assert Taken(s)[k].None?;
    GivenFrames(Taken(s), s[k].value);
  }

  class TinyAllocator {
    const slots: array<Option<Frame>>

    ghost predicate Valid()
    {
      slots.Length == 3
    }

    /** The frames the pool holds. */
    ghost function Pool(): multiset<Frame>
      reads slots
    {
      HeldFrames(slots[..])
    }

    /**
     * `TinyAllocator::new`: three draws from the outer allocator, kept in
     * slots 0 to 2 in order (`None` where the outer allocator had run out).
     */
    constructor (outer: InitialFrameAllocator)
      requires outer.Valid()
      modifies outer
      ensures Valid() && fresh(slots) && outer.Valid()
      ensures FilledFrom(outer, old(outer.nextFrame.number), slots[..])
      ensures slots[2].Some? ==> outer.nextFrame.number == slots[2].value.number + 1
      ensures slots[2].None? ==> outer.currentArea.None?
    {
      ghost var lo := outer.nextFrame.number;
      var a := outer.AllocateFrame();
      ghost var c1 := outer.nextFrame.number;
      var b := outer.AllocateFrame();
      ghost var c2 := outer.nextFrame.number;
      if a.None? && b.Some? {
        outer.NothingAfterExhausted(lo, c1, b.value);
      }
      var c := outer.AllocateFrame();
      if b.None? && c.Some? {
        outer.NothingAfterExhausted(c1, c2, c.value);
      }
      ThreeDraws(outer, lo, c1, c2, a, b, c);
      slots := new Option<Frame>[3] [a, b, c];
      new;
      assert slots[..] == [a, b, c];
    }

    /** `allocate_frame`: take the frame of the lowest occupied slot; `None` when all are empty. */
    method AllocateFrame() returns (r: Option<Frame>)
      requires Valid()
      modifies slots
      ensures r == Drawn(old(slots[..]))
      ensures slots[..] == Taken(old(slots[..]))
    {
      for i := 0 to slots.Length
        invariant slots[..] == old(slots[..])
        invariant forall j | 0 <= j < i :: slots[j].None?
      {
        if slots[i].Some? {
          r := slots[i];
          slots[i] := None;
          return;
        }
      }
      return None;
    }

    /** `deallocate_frame`: store the frame in the lowest empty slot; fatal when all three are full. */
    method DeallocateFrame(frame: Frame) returns (o: Outcome)
      requires Valid()
      modifies slots
      ensures o == if FirstEmpty(old(slots[..])) < 3 then Done else Fail(PoolFull)
      ensures slots[..] == Given(old(slots[..]), frame)
    {
      for i := 0 to slots.Length
        invariant slots[..] == old(slots[..])
        invariant forall j | 0 <= j < i :: slots[j].Some?
      {
        if slots[i].None? {
          slots[i] := Some(frame);
          return Done;
        }
      }
      return Fail(PoolFull);
    }
  }
}
