/**
  The producer's scatter cursor: one logical buffer spread over segments of any lengths, written in
  place. The segments refine a flat buffer that only changes where the cursor writes.
 */
module ScatterCursor {
  import opened Utf8

  // ----- The flat buffer

  function Join(contents: seq<Bytes>): Bytes {
    if contents == [] then [] else Join(contents[..|contents| - 1]) + contents[|contents| - 1]
  }

  /** Where part `j` starts once the parts are joined. */
  function Offset(contents: seq<Bytes>, j: nat): nat
    requires j <= |contents|
  {
    if j == 0 then 0 else Offset(contents, j - 1) + |contents[j - 1]|
  }

  /** `data` written over `flat` at `at`. */
  function Put(flat: Bytes, at: nat, data: Bytes): (r: Bytes)
    requires at + |data| <= |flat|
    ensures |r| == |flat|
  {
    flat[..at] + data + flat[at + |data|..]
  }

  lemma {:induction false} OffsetOfPrefix(contents: seq<Bytes>, n: nat, j: nat)
    requires j <= n <= |contents|
    ensures Offset(contents[..n], j) == Offset(contents, j)
  {
    if j != 0 {
      OffsetOfPrefix(contents, n, j - 1);
    }
  }

  lemma {:induction false} JoinedLength(contents: seq<Bytes>)
    ensures |Join(contents)| == Offset(contents, |contents|)
  {
    if contents != [] {
      JoinedLength(contents[..|contents| - 1]);
      OffsetOfPrefix(contents, |contents| - 1, |contents| - 1);
    }
  }

  lemma {:induction false} JoinSplits(contents: seq<Bytes>, j: nat)
    requires j < |contents|
    ensures Offset(contents, j) + |contents[j]| <= |Join(contents)|
    ensures Join(contents)[Offset(contents, j)..Offset(contents, j) + |contents[j]|] == contents[j]
  {
    var most := contents[..|contents| - 1];
    JoinedLength(most);
    OffsetOfPrefix(contents, |contents| - 1, j);
    if j + 1 < |contents| {
      JoinSplits(most, j);
    }
  }

  /** Writing inside one segment writes at the matching place of the flat buffer. */
  lemma {:induction false} JoinPut(before: seq<Bytes>, after: seq<Bytes>, j: nat, offset: nat, data: Bytes)
    requires j < |before| == |after| && offset + |data| <= |before[j]|
    requires after[j] == Put(before[j], offset, data)
    requires forall i | 0 <= i < |before| && i != j :: after[i] == before[i]
    ensures Offset(before, j) + offset + |data| <= |Join(before)|
    ensures Join(after) == Put(Join(before), Offset(before, j) + offset, data)
  {
    JoinSplits(before, j);
    var last := |before| - 1;
    OffsetOfPrefix(before, last, j);
    JoinedLength(before[..last]);
    if j == last {
      assert after[..last] == before[..last];
      PutInTail(Join(before[..last]), before[last], offset, data);
    } else {
      JoinPut(before[..last], after[..last], j, offset, data);
      PutInHead(Join(before[..last]), before[last], Offset(before, j) + offset, data);
    }
  }

  lemma PutInTail(head: Bytes, tail: Bytes, offset: nat, data: Bytes)
    requires offset + |data| <= |tail|
    ensures head + Put(tail, offset, data) == Put(head + tail, |head| + offset, data)
  {
  }

  lemma PutInHead(head: Bytes, tail: Bytes, at: nat, data: Bytes)
    requires at + |data| <= |head|
    ensures Put(head, at, data) + tail == Put(head + tail, at, data)
  {
  }

  /** Consecutive writes are one write of what they wrote. */
  lemma PutPut(flat: Bytes, at: nat, first: Bytes, second: Bytes)
    requires at + |first| + |second| <= |flat|
    ensures Put(Put(flat, at, first), at + |first|, second) == Put(flat, at, first + second)
  {
    var once := Put(flat, at, first);
    assert once[..at + |first|] == flat[..at] + first;
    assert once[at + |first| + |second|..] == flat[at + |first| + |second|..];
  }

  /** `Put`, byte by byte. */
  ghost predicate Overwritten(now: Bytes, before: Bytes, at: nat, data: Bytes) {
    && |now| == |before| && at + |data| <= |before|
    && forall i | 0 <= i < |now| :: now[i] == if at <= i < at + |data| then data[i - at] else before[i]
  }

  lemma OverwrittenIsPut(now: Bytes, before: Bytes, at: nat, data: Bytes)
    requires Overwritten(now, before, at, data)
    ensures now == Put(before, at, data)
  {
  }

  lemma WrittenOn(soFar: Bytes, now: Bytes, before: Bytes, at: nat, bytes: Bytes, source: nat, take: nat)
    requires source + take <= |bytes| && at + |bytes| <= |before|
    requires Overwritten(soFar, before, at, bytes[..source])
    requires now == Put(soFar, at + source, bytes[source..][..take])
    ensures Overwritten(now, before, at, bytes[..source + take])
  {
  }

  lemma PutNothing(flat: Bytes, at: nat)
    requires at <= |flat|
    ensures Put(flat, at, []) == flat
  {
  }

  /** `set` on one typed array. */
  method SetBytes(segment: array<Byte>, offset: nat, data: Bytes)
    requires offset + |data| <= segment.Length
    modifies segment
    ensures segment[..] == Put(old(segment[..]), offset, data)
  {
    forall k | 0 <= k < |data| {
      segment[offset + k] := data[k];
    }
  }

  // ----- The cursor

  ghost function ContentsOf(segments: seq<array<Byte>>): (c: seq<Bytes>)
    reads segments
    ensures |c| == |segments|
    ensures forall j | 0 <= j < |segments| :: c[j] == segments[j][..]
  {
    seq(|segments|, j requires 0 <= j < |segments| reads segments => segments[j][..])
  }

  /** Where segment `j` starts in the flat buffer. */
  function StartOf(segments: seq<array<Byte>>, j: nat): nat
    requires j <= |segments|
  {
    if j == 0 then 0 else StartOf(segments, j - 1) + segments[j - 1].Length
  }

  lemma {:induction false} StartIsOffset(segments: seq<array<Byte>>, j: nat)
    requires j <= |segments|
    ensures StartOf(segments, j) == Offset(ContentsOf(segments), j)
  {
    if j != 0 {
      StartIsOffset(segments, j - 1);
    }
  }

  /** The spans of one reservation: no two are the same memory. */
  ghost predicate Separate(segments: seq<array<Byte>>) {
    segments == [] || (segments[|segments| - 1] !in segments[..|segments| - 1] && Separate(segments[..|segments| - 1]))
  }

  lemma {:induction false} SeparateApart(segments: seq<array<Byte>>, i: nat, j: nat)
    requires Separate(segments) && i < |segments| && j < |segments| && i != j
    ensures segments[i] != segments[j]
  {
    var last := |segments| - 1;
    if i == last {
      assert segments[j] in segments[..last];
    } else if j == last {
      assert segments[i] in segments[..last];
    } else {
      SeparateApart(segments[..last], i, j);
    }
  }

  /** The window `view` hands out: a segment from an offset on, or nothing at capacity. */
  datatype View = Nothing | Tail(segment: array<Byte>, from: nat)

  class ProducerCursor {
    const segments: seq<array<Byte>>
    const capacity: nat
    var cursor: nat

    ghost predicate Valid()
      reads this, segments
    {
      cursor <= capacity == |Flat()| && Separate(segments)
    }

    /** The segments end to end. */
    ghost function Flat(): Bytes
      reads segments
    {
      Join(ContentsOf(segments))
    }

    /** Offset `offset` of segment `j` is the cursor's place moved on by `done` bytes. */
    ghost predicate At(j: nat, offset: int, done: nat)
      requires j <= |segments|
      reads this
    {
      StartOf(segments, j) + offset == cursor + done
    }

    constructor (segments: seq<array<Byte>>, capacity: nat)
      requires Separate(segments)
      requires capacity == |Join(ContentsOf(segments))|
      ensures Valid() && cursor == 0 && this.segments == segments && this.capacity == capacity
    {
      this.segments := segments;
      this.capacity := capacity;
      cursor := 0;
    }

    lemma SegmentOfFlat(j: nat)
      requires j < |segments|
      ensures StartOf(segments, j) + segments[j].Length <= |Flat()|
      ensures Flat()[StartOf(segments, j)..StartOf(segments, j) + segments[j].Length] == segments[j][..]
    {
      StartIsOffset(segments, j);
      JoinSplits(ContentsOf(segments), j);
    }

    lemma EndOfFlat()
      ensures StartOf(segments, |segments|) == |Flat()|
    {
      StartIsOffset(segments, |segments|);
      JoinedLength(ContentsOf(segments));
    }

    /** `view`: the rest of the segment that holds the cursor, and nothing only at capacity. */
    method GetView() returns (v: View, ghost j: nat)
      requires Valid()
      ensures v.Nothing? <==> cursor == capacity
      ensures v.Tail? ==>
                && j < |segments| && segments[j] == v.segment && v.from < v.segment.Length
                && At(j, v.from, 0)
                && cursor + (v.segment.Length - v.from) <= capacity
                && v.segment[v.from..] == Flat()[cursor..cursor + (v.segment.Length - v.from)]
    {
      j := 0;
      var offset: nat := cursor;
      for i := 0 to |segments|
        invariant At(i, offset, 0)
      {
        SegmentOfFlat(i);
        var segment := segments[i];
        if offset < segment.Length {
          v, j := Tail(segment, offset), i;
          TailOfSlice(Flat(), StartOf(segments, i), segment[..], offset);
          return;
        }
        offset := offset - segment.Length;
      }
      EndOfFlat();
      v := Nothing;
    }

    /** `advance`; false is the overflow error. */
    method Advance(bytes: int) returns (ok: bool)
      requires Valid()
      modifies this
      ensures Valid() && Flat() == old(Flat())
      ensures ok <==> 0 <= bytes <= capacity - old(cursor)
      ensures cursor == if ok then old(cursor) + bytes else old(cursor)
    {
      if bytes < 0 || bytes > capacity - cursor {
        return false;
      }
      cursor := cursor + bytes;
      return true;
    }

    /** Bytes set in one segment change the flat buffer there and nowhere else. */
    method SetIn(segment: array<Byte>, ghost j: nat, offset: nat, data: Bytes)
      requires Valid()
      requires j < |segments| && segments[j] == segment && offset + |data| <= segment.Length
      modifies segment
      ensures Valid()
      ensures StartOf(segments, j) + offset + |data| <= |old(Flat())|
      ensures Flat() == Put(old(Flat()), StartOf(segments, j) + offset, data)
    {
      ghost var before := ContentsOf(segments);
      StartIsOffset(segments, j);
      SetBytes(segment, offset, data);
      ghost var after := ContentsOf(segments);
      forall i | 0 <= i < |segments| && i != j
        ensures after[i] == before[i]
      {
        SeparateApart(segments, i, j);
      }
      JoinPut(before, after, j, offset, data);
    }

    /** Bytes `[..source]` are written at the cursor and the rest of the flat buffer is `before`. */
    ghost predicate Written(before: Bytes, bytes: Bytes, source: nat)
      reads this, segments
    {
      && source <= |bytes| && cursor + |bytes| <= |before|
      && Overwritten(Flat(), before, cursor, bytes[..source])
    }

    /** One turn of `write`'s loop that copies: as much of the rest as fits goes to the segment. */
    method Fill(segment: array<Byte>, ghost j: nat, offset: nat, bytes: Bytes, source: nat, ghost before: Bytes)
      returns (take: nat)
      requires Valid() && Written(before, bytes, source) && source < |bytes|
      requires j < |segments| && segments[j] == segment && offset < segment.Length
      requires At(j, offset, source)
      modifies segment
      ensures Valid() && 0 < take && Written(before, bytes, source + take)
      ensures source + take == |bytes| || At(j + 1, 0, source + take)
    {
      take := if segment.Length - offset < |bytes| - source then segment.Length - offset else |bytes| - source;
      SegmentOfFlat(j);
      SetIn(segment, j, offset, bytes[source..][..take]);
      WrittenOn(old(Flat()), Flat(), before, cursor, bytes, source, take);
    }

    /** `write`: the bytes land at the cursor, in order, across as many segments as it takes. */
    method Write(bytes: Bytes) returns (ok: bool)
      requires Valid()
      modifies this, segments
      ensures Valid()
      ensures ok <==> |bytes| <= capacity - old(cursor)
      ensures cursor == if ok then old(cursor) + |bytes| else old(cursor)
      ensures Flat() == if ok then Put(old(Flat()), old(cursor), bytes) else old(Flat())
    {
      if |bytes| > capacity - cursor {
        return false;
      }
      StartWriting(bytes);
      Scatter(bytes, Flat());
      assert bytes[..|bytes|] == bytes;
      OverwrittenIsPut(Flat(), old(Flat()), cursor, bytes);
      cursor := cursor + |bytes|;
      return true;
    }

    lemma StartWriting(bytes: Bytes)
      requires Valid() && |bytes| <= capacity - cursor
      ensures Written(Flat(), bytes, 0)
    {
    }

    /** The loop of `write`. */
    method Scatter(bytes: Bytes, ghost before: Bytes)
      requires Valid() && |bytes| <= capacity - cursor
      requires Written(before, bytes, 0)
      modifies segments
      ensures Valid() && Written(before, bytes, |bytes|)
    {
      var source: nat := 0;
      var offset: nat := cursor;
      var j: nat := 0;
      while j < |segments| && source != |bytes|
        invariant j <= |segments|
        invariant Valid() && Written(before, bytes, source)
        invariant source == |bytes| || At(j, offset, source)
      {
        var segment := segments[j];
        if offset >= segment.Length {
          offset := offset - segment.Length;
        } else {
          var take := Fill(segment, j, offset, bytes, source, before);
          source := source + take;
          offset := 0;
        }
        j := j + 1;
      }
      EndOfFlat();
    }
  }

  lemma TailOfSlice(flat: Bytes, start: nat, part: Bytes, offset: nat)
    requires start + |part| <= |flat| && offset <= |part|
    requires flat[start..start + |part|] == part
    ensures part[offset..] == flat[start + offset..start + |part|]
  {
    assert part[offset..] == flat[start..start + |part|][offset..];
  }

  /** A cursor is only made over segments whose lengths add up to the reservation's capacity. */
  method NewCursor(segments: seq<array<Byte>>, capacity: nat) returns (c: ProducerCursor?)
    requires Separate(segments)
    ensures c == null <==> capacity != |Join(ContentsOf(segments))|
    ensures c != null ==> fresh(c) && c.Valid() && c.cursor == 0 && c.segments == segments && c.capacity == capacity
  {
    var available: nat := 0;
    for j := 0 to |segments|
      invariant available == StartOf(segments, j)
    {
      available := available + segments[j].Length;
    }
    StartIsOffset(segments, |segments|);
    JoinedLength(ContentsOf(segments));
    if available != capacity {
      return null;
    }
    c := new ProducerCursor(segments, capacity);
  }

  // ----- Whole runs, against a machine with one flat buffer

  /** What a producer does: copy bytes in, set bytes in the current view, or step over some. */
  datatype Op = WriteOp(bytes: Bytes) | FillOp(data: Bytes) | AdvanceOp(count: int)

  /** A flat buffer and a position in it. */
  datatype Machine = Machine(flat: Bytes, cursor: nat)

  function Lengths(segments: seq<array<Byte>>): (lengths: seq<nat>)
    ensures |lengths| == |segments| && forall j | 0 <= j < |segments| :: lengths[j] == segments[j].Length
  {
    seq(|segments|, j requires 0 <= j < |segments| => segments[j].Length)
  }

  /** How much of the segment that holds position `at` lies from there on: what one view can take. */
  function Room(lengths: seq<nat>, at: nat): nat {
    if lengths == [] then 0
    else if at < lengths[0] then lengths[0] - at
    else Room(lengths[1..], at - lengths[0])
  }

  /** Whether the machine takes the operation. */
  predicate Takes(m: Machine, lengths: seq<nat>, op: Op) {
    match op
    case WriteOp(bytes) => m.cursor + |bytes| <= |m.flat|
    case FillOp(data) => |data| <= Room(lengths, m.cursor)
    case AdvanceOp(count) => 0 <= count && m.cursor + count <= |m.flat|
  }

  /** What it does then; an operation that is refused changes nothing. */
  function Step(m: Machine, lengths: seq<nat>, op: Op): (n: Machine)
    requires m.cursor + Room(lengths, m.cursor) <= |m.flat|
    ensures |n.flat| == |m.flat|
  {
    if !Takes(m, lengths, op) then m
    else
      match op
      case WriteOp(bytes) => Machine(Put(m.flat, m.cursor, bytes), m.cursor + |bytes|)
      case FillOp(data) => Machine(Put(m.flat, m.cursor, data), m.cursor)
      case AdvanceOp(count) => Machine(m.flat, m.cursor + count)
  }

  function Total(lengths: seq<nat>): nat {
    if lengths == [] then 0 else lengths[0] + Total(lengths[1..])
  }

  lemma {:induction false} RoomFits(lengths: seq<nat>, at: nat)
    requires at <= Total(lengths)
    ensures at + Room(lengths, at) <= Total(lengths)
    ensures Room(lengths, at) == 0 <==> at == Total(lengths)
  {
    if lengths != [] && at >= lengths[0] {
      RoomFits(lengths[1..], at - lengths[0]);
    }
  }

  /** The machine's buffer is as long as the segments together, and its cursor inside it. */
  ghost predicate Fits(m: Machine, lengths: seq<nat>) {
    m.cursor <= |m.flat| == Total(lengths)
  }

  /** A whole run, and which operations were taken. */
  ghost function Run(m: Machine, lengths: seq<nat>, ops: seq<Op>): (r: (Machine, seq<bool>))
    requires Fits(m, lengths)
    ensures Fits(r.0, lengths)
  {
    if ops == [] then (m, [])
    else
      var last := |ops| - 1;
      var (n, taken) := Run(m, lengths, ops[..last]);
      RoomFits(lengths, n.cursor);
      (Step(n, lengths, ops[last]), taken + [Takes(n, lengths, ops[last])])
  }

  lemma {:induction false} RoomAt(lengths: seq<nat>, j: nat, at: nat, from: nat)
    requires j < |lengths| && from < lengths[j] && at == Total(lengths[..j]) + from
    ensures Room(lengths, at) == lengths[j] - from
  {
    if j > 0 {
      assert lengths[..j][0] == lengths[0] && lengths[..j][1..] == lengths[1..][..j - 1];
      RoomAt(lengths[1..], j - 1, at - lengths[0], from);
    }
  }

  lemma {:induction false} TotalIsStart(segments: seq<array<Byte>>, j: nat)
    requires j <= |segments|
    ensures Total(Lengths(segments)[..j]) == StartOf(segments, j)
  {
    var lengths := Lengths(segments);
    if j > 0 {
      TotalIsStart(segments, j - 1);
      TotalOneMore(lengths, j - 1);
    }
  }

  lemma {:induction false} TotalOneMore(lengths: seq<nat>, j: nat)
    requires j < |lengths|
    ensures Total(lengths[..j + 1]) == Total(lengths[..j]) + lengths[j]
  {
    if j > 0 {
      assert lengths[..j + 1][1..] == lengths[1..][..j] && lengths[..j][1..] == lengths[1..][..j - 1];
      TotalOneMore(lengths[1..], j - 1);
    }
  }

  /** The state of a cursor, as the machine it refines. */
  ghost function Abstraction(c: ProducerCursor): Machine
    reads c, c.segments
  {
    Machine(c.Flat(), c.cursor)
  }

  lemma CapacityIsTotal(c: ProducerCursor)
    requires c.Valid()
    ensures c.capacity == Total(Lengths(c.segments))
    ensures Fits(Abstraction(c), Lengths(c.segments))
  {
    c.EndOfFlat();
    TotalIsStart(c.segments, |c.segments|);
    assert Lengths(c.segments)[..|c.segments|] == Lengths(c.segments);
  }

  /** The view is as long as the room at the cursor. */
  lemma ViewIsRoom(c: ProducerCursor, v: View, j: nat)
    requires c.Valid()
    requires v.Nothing? ==> c.cursor == c.capacity
    requires v.Tail? ==> j < |c.segments| && c.segments[j] == v.segment
                         && v.from < v.segment.Length && c.At(j, v.from, 0)
    ensures Room(Lengths(c.segments), c.cursor) == if v.Tail? then v.segment.Length - v.from else 0
  {
    var lengths := Lengths(c.segments);
    if v.Tail? {
      TotalIsStart(c.segments, j);
      RoomAt(lengths, j, c.cursor, v.from);
    } else {
      CapacityIsTotal(c);
      RoomFits(lengths, c.cursor);
    }
  }

  /** The holder of a view sets bytes in it. */
  method FillTail(c: ProducerCursor, segment: array<Byte>, ghost j: nat, from: nat, data: Bytes)
    requires c.Valid()
    requires j < |c.segments| && c.segments[j] == segment && from + |data| <= segment.Length && c.At(j, from, 0)
    modifies segment
    ensures c.Valid() && c.cursor + |data| <= c.capacity
    ensures c.Flat() == Put(old(c.Flat()), c.cursor, data)
  {
    c.SegmentOfFlat(j);
    c.SetIn(segment, j, from, data);
  }

  /** Bytes placed in the current view, which stays where it is; refused exactly when they do not fit it. */
  method FillView(c: ProducerCursor, data: Bytes) returns (ok: bool)
    requires c.Valid()
    modifies c.segments
    ensures c.Valid() && c.cursor == old(c.cursor)
    ensures ok <==> |data| <= Room(Lengths(c.segments), c.cursor)
    ensures ok ==> c.cursor + |data| <= c.capacity && c.Flat() == Put(old(c.Flat()), c.cursor, data)
    ensures !ok ==> c.Flat() == old(c.Flat())
  {
    var v, j := c.GetView();
    ViewIsRoom(c, v, j);
    if v.Nothing? {
      PutNothing(c.Flat(), c.cursor);
      return data == [];
    }
    if |data| > v.segment.Length - v.from {
      return false;
    }
    FillTail(c, v.segment, j, v.from, data);
    return true;
  }

  /** One operation on the cursor is one step of the machine. */
  method Do(c: ProducerCursor, op: Op) returns (ok: bool)
    requires c.Valid()
    modifies c, c.segments
    ensures c.Valid() && Fits(old(Abstraction(c)), Lengths(c.segments))
    ensures ok <==> Takes(old(Abstraction(c)), Lengths(c.segments), op)
    ensures old(c.cursor) + Room(Lengths(c.segments), old(c.cursor)) <= |old(c.Flat())|
    ensures Abstraction(c) == Step(old(Abstraction(c)), Lengths(c.segments), op)
  {
    CapacityIsTotal(c);
    RoomFits(Lengths(c.segments), c.cursor);
    match op {
      case WriteOp(bytes) => ok := c.Write(bytes);
      case FillOp(data) => ok := FillView(c, data);
      case AdvanceOp(count) => ok := c.Advance(count);
    }
  }

  lemma RunTurns(m: Machine, lengths: seq<nat>, ops: seq<Op>)
    requires Fits(m, lengths) && ops != []
    ensures
      var before := Run(m, lengths, ops[..|ops| - 1]);
      && before.0.cursor + Room(lengths, before.0.cursor) <= |before.0.flat|
      && Run(m, lengths, ops) == (Step(before.0, lengths, ops[|ops| - 1]),
                                  before.1 + [Takes(before.0, lengths, ops[|ops| - 1])])
  {
    RoomFits(lengths, Run(m, lengths, ops[..|ops| - 1]).0.cursor);
  }

  /** Any sequence of operations leaves buffer and cursor where the flat machine's run ends, and takes what it takes. */
  method RunOps(c: ProducerCursor, ops: seq<Op>) returns (taken: seq<bool>)
    requires c.Valid()
    modifies c, c.segments
    ensures c.Valid() && Fits(old(Abstraction(c)), Lengths(c.segments))
    ensures (Abstraction(c), taken) == Run(old(Abstraction(c)), Lengths(c.segments), ops)
  {
    CapacityIsTotal(c);
    if ops == [] {
      taken := [];
    } else {
      var last := |ops| - 1;
      taken := RunOps(c, ops[..last]);
      ghost var before := Abstraction(c);
      var ok := Do(c, ops[last]);
      RunTurns(old(Abstraction(c)), Lengths(c.segments), ops);
      taken := taken + [ok];
    }
  }

  // ----- What a run does to the buffer

  lemma {:induction false} RoomEndGrows(lengths: seq<nat>, at: nat, at': nat)
    requires at <= at' <= Total(lengths)
    ensures at + Room(lengths, at) <= at' + Room(lengths, at')
  {
    if lengths != [] && at' >= lengths[0] {
      if at < lengths[0] {
        assert at + Room(lengths, at) == lengths[0];
      } else {
        RoomEndGrows(lengths[1..], at - lengths[0], at' - lengths[0]);
      }
    }
  }

  /** Only the bytes from where the run began to the end of the segment it ended in can have changed. */
  ghost predicate TouchedWithin(m: Machine, n: Machine, lengths: seq<nat>) {
    && m.cursor <= n.cursor && |n.flat| == |m.flat|
    && forall i | 0 <= i < |m.flat| && n.flat[i] != m.flat[i] :: m.cursor <= i < n.cursor + Room(lengths, n.cursor)
  }

  lemma StepTouchesWithin(m: Machine, n: Machine, lengths: seq<nat>, op: Op)
    requires Fits(m, lengths) && Fits(n, lengths) && TouchedWithin(m, n, lengths)
    requires n.cursor + Room(lengths, n.cursor) <= |n.flat|
    ensures TouchedWithin(m, Step(n, lengths, op), lengths)
  {
    RoomEndGrows(lengths, n.cursor, Step(n, lengths, op).cursor);
  }

  lemma {:induction false} RunTouchesWithin(m: Machine, lengths: seq<nat>, ops: seq<Op>)
    requires Fits(m, lengths)
    ensures TouchedWithin(m, Run(m, lengths, ops).0, lengths)
  {
    if ops != [] {
      var last := |ops| - 1;
      RunTouchesWithin(m, lengths, ops[..last]);
      RunTurns(m, lengths, ops);
      StepTouchesWithin(m, Run(m, lengths, ops[..last]).0, lengths, ops[last]);
    }
  }

  /** The bytes a run of writes put down, those refused leaving nothing. */
  function Landed(ops: seq<Op>, taken: seq<bool>): Bytes
    requires |ops| == |taken| && forall op | op in ops :: op.WriteOp?
  {
    if ops == [] then []
    else
      var last := |ops| - 1;
      Landed(ops[..last], taken[..last]) + (if taken[last] then ops[last].bytes else [])
  }

  /** Writes alone leave the bytes that were taken end to end, from where the cursor was to where it is. */
  lemma {:induction false} WritesLandEndToEnd(m: Machine, lengths: seq<nat>, ops: seq<Op>)
    requires Fits(m, lengths) && forall op | op in ops :: op.WriteOp?
    ensures
      var (n, taken) := Run(m, lengths, ops);
      && |taken| == |ops| && n.cursor == m.cursor + |Landed(ops, taken)| <= |m.flat|
      && n.flat == Put(m.flat, m.cursor, Landed(ops, taken))
  {
    if ops == [] {
      PutNothing(m.flat, m.cursor);
    } else {
      var last := |ops| - 1;
      WritesLandEndToEnd(m, lengths, ops[..last]);
      RunTurns(m, lengths, ops);
      var (n, taken) := Run(m, lengths, ops[..last]);
      OneMoreLands(m, n, lengths, ops, taken);
    }
  }

  lemma OneMoreLands(m: Machine, n: Machine, lengths: seq<nat>, ops: seq<Op>, taken: seq<bool>)
    requires ops != [] && |taken| == |ops| - 1 && forall op | op in ops :: op.WriteOp?
    requires |n.flat| == |m.flat| && n.cursor + Room(lengths, n.cursor) <= |n.flat|
    requires n.cursor == m.cursor + |Landed(ops[..|ops| - 1], taken)| <= |m.flat|
    requires n.flat == Put(m.flat, m.cursor, Landed(ops[..|ops| - 1], taken))
    ensures
      var op := ops[|ops| - 1];
      var after, all := Step(n, lengths, op), taken + [Takes(n, lengths, op)];
      && after.cursor == m.cursor + |Landed(ops, all)| <= |m.flat|
      && after.flat == Put(m.flat, m.cursor, Landed(ops, all))
  {
    var op := ops[|ops| - 1];
    var all := taken + [Takes(n, lengths, op)];
    assert all[..|ops| - 1] == taken;
    var landed := Landed(ops[..|ops| - 1], taken);
    if Takes(n, lengths, op) {
      PutPut(m.flat, m.cursor, landed, op.bytes);
    } else {
      assert landed + [] == landed;
    }
  }
}
