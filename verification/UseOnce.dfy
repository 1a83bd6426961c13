/**
  Reservations and leases of the shared-memory channel are settled once, whatever their holder calls
  and in whatever order, and even when the native side fails the call that settles them.
 */
module UseOnce {

  // ----- Producer reservations

  datatype Settlement = Commit(written: int) | Abort

  /** How a call on a reservation or lease ends. */
  datatype Ending = Done | NativeFailed | AlreadyReleased

  class NativeProducerReservation {
    var active: bool
    /** Calls the native side has received. */
    var native: seq<Settlement>

    constructor ()
      ensures active && native == []
    {
      active, native := true, [];
    }

    /** `commit`; `works` is what the native call does with it. */
    method DoCommit(written: int, works: bool) returns (end: Ending)
      modifies this
      ensures !active
      ensures native == old(native) + (if old(active) then [Commit(written)] else [])
      ensures end == if !old(active) then AlreadyReleased else if works then Done else NativeFailed
    {
      if !active {
        return AlreadyReleased;
      }
      active := false;
      native := native + [Commit(written)];
      return if works then Done else NativeFailed;
    }

    /** `abort`: silent on a settled reservation. */
    method DoAbort(works: bool) returns (end: Ending)
      modifies this
      ensures !active
      ensures native == old(native) + (if old(active) then [Abort] else [])
      ensures end == if old(active) && !works then NativeFailed else Done
    {
      if !active {
        return Done;
      }
      active := false;
      native := native + [Abort];
      return if works then Done else NativeFailed;
    }
  }

  /**
    The native side hears of the first call and of no other: a reservation is committed or aborted,
    never both and never twice, and every later commit is refused.
   */
  method Settle(calls: seq<Settlement>, works: seq<bool>) returns (r: NativeProducerReservation, ends: seq<Ending>)
    requires |calls| == |works|
    ensures fresh(r) && r.native == calls[..if calls == [] then 0 else 1]
    ensures r.active <==> calls == []
    ensures |ends| == |calls|
    ensures forall k | 0 < k < |calls| :: ends[k] == if calls[k].Commit? then AlreadyReleased else Done
    ensures calls != [] ==> ends[0] == if works[0] then Done else NativeFailed
  {
    r := new NativeProducerReservation();
    ends := [];
    for i := 0 to |calls|
      invariant fresh(r) && (r.active <==> i == 0)
      invariant r.native == calls[..if i == 0 then 0 else 1] && |ends| == i
      invariant forall k | 0 < k < i :: ends[k] == if calls[k].Commit? then AlreadyReleased else Done
      invariant i > 0 ==> ends[0] == if works[0] then Done else NativeFailed
    {
      var end;
      match calls[i] {
        case Commit(written) => end := r.DoCommit(written, works[i]);
        case Abort => end := r.DoAbort(works[i]);
      }
      ends := ends + [end];
    }
  }

  // ----- Receive leases

  datatype Use = Segment(index: int) | ByteLength | Release | Dispose

  datatype Answer<T> = Bytes(segment: seq<T>) | Length(bytes: nat) | Released | NoSegment | LeaseReleased

  function TotalLength<T>(segments: seq<seq<T>>): nat {
    if segments == [] then 0 else TotalLength(segments[..|segments| - 1]) + |segments[|segments| - 1]|
  }

  /** What a live lease answers. */
  function LiveAnswer<T>(segments: seq<seq<T>>, use: Use): Answer<T> {
    match use
    case Segment(index) => if 0 <= index < |segments| then Bytes(segments[index]) else NoSegment
    case ByteLength => Length(TotalLength(segments))
    case Release => Released
    case Dispose => Released
  }

  predicate Ends(use: Use) {
    use.Release? || use.Dispose?
  }

  class NativeReceiveLease<T> {
    const segments: seq<seq<T>>
    var released: bool
    /** Times the native side was told to release. */
    var releases: nat

    constructor (segments: seq<seq<T>>)
      ensures this.segments == segments && !released && releases == 0
    {
      this.segments := segments;
      released, releases := false, 0;
    }

    method SegmentAt(index: int) returns (a: Answer<T>)
      ensures a == if released then LeaseReleased else LiveAnswer(segments, Segment(index))
    {
      if released {
        return LeaseReleased;
      }
      if index < 0 || index >= |segments| {
        return NoSegment;
      }
      return Bytes(segments[index]);
    }

    method GetByteLength() returns (a: Answer<T>)
      ensures a == if released then LeaseReleased else Length(TotalLength(segments))
    {
      if released {
        return LeaseReleased;
      }
      var sum: nat := 0;
      for i := 0 to |segments|
        invariant sum == TotalLength(segments[..i])
      {
        assert segments[..i + 1][..i] == segments[..i];
        sum := sum + |segments[i]|;
      }
      assert segments[..|segments|] == segments;
      return Length(sum);
    }

    method DoRelease() returns (a: Answer<T>)
      modifies this
      ensures released && releases == old(releases) + (if old(released) then 0 else 1)
      ensures a == if old(released) then LeaseReleased else Released
    {
      if released {
        return LeaseReleased;
      }
      released := true;
      releases := releases + 1;
      return Released;
    }

    /** Disposal releases unless that has happened. */
    method DoDispose() returns (a: Answer<T>)
      modifies this
      ensures released && releases == old(releases) + (if old(released) then 0 else 1)
      ensures a == Released
    {
      if released {
        return Released;
      }
      a := DoRelease();
    }
  }

  /** Some use before the `k`th ended the lease. */
  predicate EndedBefore(uses: seq<Use>, k: nat) {
    exists i | 0 <= i < |uses| && i < k :: Ends(uses[i])
  }

  /**
    Any run of uses: bytes are handed out only before the first release or disposal, the native side
    is told once exactly when there was one, and only disposal may be repeated.
   */
  method UseLease<T>(segments: seq<seq<T>>, uses: seq<Use>)
    returns (lease: NativeReceiveLease<T>, answers: seq<Answer<T>>)
    ensures fresh(lease) && |answers| == |uses|
    ensures lease.releases == if EndedBefore(uses, |uses|) then 1 else 0
    ensures forall k | 0 <= k < |uses| :: answers[k] ==
              if uses[k].Dispose? then Released
              else if EndedBefore(uses, k) then LeaseReleased
              else LiveAnswer(segments, uses[k])
  {
    lease := new NativeReceiveLease(segments);
    answers := [];
    for i := 0 to |uses|
      invariant fresh(lease) && lease.segments == segments && |answers| == i
      invariant lease.released == EndedBefore(uses, i)
      invariant lease.releases == if lease.released then 1 else 0
      invariant forall k | 0 <= k < i :: answers[k] ==
                  if uses[k].Dispose? then Released
                  else if EndedBefore(uses, k) then LeaseReleased
                  else LiveAnswer(segments, uses[k])
    {
      var a;
      match uses[i] {
        case Segment(index) => a := lease.SegmentAt(index);
        case ByteLength => a := lease.GetByteLength();
        case Release => a := lease.DoRelease();
        case Dispose => a := lease.DoDispose();
      }
      assert EndedBefore(uses, i + 1) <==> EndedBefore(uses, i) || Ends(uses[i]);
      answers := answers + [a];
    }
  }
}
