/**
 Aggregates built in their result registers.

 A plan gives every result lane one source: a whole register, or an immediate collected from tag
 bytes. The lemmas say that the writes of a plan never touch the same byte, so that their order
 does not matter. `AggregateCode` compares the plan with building the aggregate in memory.
 */
module AggregatePlan {
  import opened Results
  import opened ByteRanges
  import opened ValuePlan

  // ---------------------------------------------------------------- values and writes

  datatype Write =
    | Tag(offset: nat, byte: Byte)
    | Value(offset: nat, value: nat)
    | Repeated(offset: nat, stride: nat, count: nat, value: nat)

  datatype Aggregate = Aggregate(size: nat, alignment: nat, writes: seq<Write>)

  // ---------------------------------------------------------------- lanes

  datatype Source = General(register: nat) | Float(register: nat, bytes: nat)

  /// One result register under construction. `written` has one flag for each byte of `immediate`.
  datatype Lane = Lane(source: Option<Source>, immediate: Word, written: seq<bool>)

  const FRESH_LANE: Lane := Lane(None, ZERO_WORD, [false, false, false, false, false, false, false, false])

  const ALL_WRITTEN: seq<bool> := [true, true, true, true, true, true, true, true]

  function FreshLanes(count: nat): (r: seq<Lane>)
    ensures |r| == count && forall i | 0 <= i < count :: r[i] == FRESH_LANE
  {
    seq(count, _ => FRESH_LANE)
  }

  /// The effect of one write on one lane.
  datatype LaneWrite = TagByte(lane: nat, byte: nat, value: Byte) | Whole(lane: nat, source: Source)

  predicate ValidLane(l: Lane) {
    && |l.written| == 8
    && (l.source.Some? ==> forall b | 0 <= b < 8 :: l.written[b])
    && (forall b | 0 <= b < 8 && !l.written[b] :: l.immediate[b] == 0)
  }

  predicate ValidLanes(lanes: seq<Lane>) {
    forall i | 0 <= i < |lanes| :: ValidLane(lanes[i])
  }

  /// A tag needs its byte unwritten. An unwritten byte of the immediate is zero, so that combining it
  /// with the tag sets it.
  function WriteTag(l: Lane, byte: nat, value: Byte): (r: Option<Lane>)
    requires ValidLane(l)
    ensures r.Some? ==> ValidLane(r.value)
  {
    if l.source.Some? || byte >= 8 || l.written[byte] then None
    else Some(l.(written := l.written[byte := true], immediate := l.immediate[byte := value]))
  }

  /// A register needs the whole lane unwritten.
  function WriteFull(l: Lane, source: Source): (r: Option<Lane>)
    requires ValidLane(l)
    ensures r.Some? ==> ValidLane(r.value)
  {
    if l.source.Some? || l.written != FRESH_LANE.written then None
    else Some(l.(source := Some(source), written := ALL_WRITTEN))
  }

  function Apply(lanes: seq<Lane>, w: LaneWrite): (r: Option<seq<Lane>>)
    requires ValidLanes(lanes)
    ensures r.Some? ==> |r.value| == |lanes| && ValidLanes(r.value)
  {
    if w.lane >= |lanes| then None
    else
      var l := if w.TagByte? then WriteTag(lanes[w.lane], w.byte, w.value) else WriteFull(lanes[w.lane], w.source);
      if l.None? then None else Some(lanes[w.lane := l.value])
  }

  function ApplyAll(lanes: seq<Lane>, ws: seq<LaneWrite>): (r: Option<seq<Lane>>)
    requires ValidLanes(lanes)
    ensures r.Some? ==> |r.value| == |lanes| && ValidLanes(r.value)
    decreases |ws|
  {
    if ws == [] then Some(lanes)
    else
      var next := Apply(lanes, ws[0]);
      if next.None? then None else ApplyAll(next.value, ws[1..])
  }

  lemma {:induction false} ApplyAppended(lanes: seq<Lane>, a: seq<LaneWrite>, b: seq<LaneWrite>)
    requires ValidLanes(lanes)
    ensures ApplyAll(lanes, a + b) ==
            if ApplyAll(lanes, a).None? then None else ApplyAll(ApplyAll(lanes, a).value, b)
    decreases |a|
  {
    if a == [] {
      assert a + b == b;
    } else {
      assert (a + b)[0] == a[0] && (a + b)[1..] == a[1..] + b;
      var next := Apply(lanes, a[0]);
      if next.Some? {
        ApplyAppended(next.value, a[1..], b);
      }
    }
  }

  // ---------------------------------------------------------------- from writes to lane writes

  function DirectWrites(first: nat, registers: seq<nat>): (r: seq<LaneWrite>)
    ensures |r| == |registers|
    ensures forall k | 0 <= k < |r| :: r[k] == Whole(first + k, General(registers[k]))
  {
    seq(|registers|, k requires 0 <= k < |registers| => Whole(first + k, General(registers[k])))
  }

  /// The registers of a value fill the lanes from `first` on exactly.
  predicate LanesMatch(total: nat, size: nat, first: nat, count: nat) {
    && LaneCount(size) == count
    && forall k | 0 <= k < count ::
         first + k < LaneCount(total) && LaneWidth(total, first + k) == LaneWidth(size, k)
  }

  function ValueWrites(body: Body, total: nat, offset: nat, value: nat): Option<seq<LaneWrite>> {
    if value >= |body.representations| || !body.representations[value].Stored? then None
    else
      var size := body.representations[value].size;
      var first := offset / WORD_SIZE;
      if size == 0 then Some([])
      else if offset % WORD_SIZE != 0 || offset + size > total || value >= |body.storage| then None
      else
        match body.storage[value]
        case Direct(registers) =>
          if LanesMatch(total, size, first, |registers|) then Some(DirectWrites(first, registers)) else None
        case Floating(register, bytes) =>
          if LaneWidth(total, first) == bytes then Some([Whole(first, Float(register, bytes))]) else None
        case _ => None
  }

  predicate OffsetOverflows(offset: nat, stride: nat, index: nat) {
    index * stride >= U64_LIMIT || index * stride + offset >= U64_LIMIT
  }

  /// The copies of a repeated value from `index` on.
  function RepeatedWrites(body: Body, total: nat, offset: nat, stride: nat, index: nat, count: nat, value: nat): Option<seq<LaneWrite>>
    requires index <= count
    decreases count - index
  {
    if index == count then Some([])
    else if OffsetOverflows(offset, stride, index) then None
    else
      var one := ValueWrites(body, total, index * stride + offset, value);
      var rest := RepeatedWrites(body, total, offset, stride, index + 1, count, value);
      if one.None? || rest.None? then None else Some(one.value + rest.value)
  }

  function LaneWrites(body: Body, total: nat, w: Write): Option<seq<LaneWrite>> {
    match w
    case Tag(offset, byte) =>
      if offset >= total then None else Some([TagByte(offset / WORD_SIZE, offset % WORD_SIZE, byte)])
    case Value(offset, value) => ValueWrites(body, total, offset, value)
    case Repeated(offset, stride, count, value) => RepeatedWrites(body, total, offset, stride, 0, count, value)
  }

  function AllLaneWrites(body: Body, total: nat, ws: seq<Write>): Option<seq<LaneWrite>> {
    if ws == [] then Some([])
    else
      var one := LaneWrites(body, total, ws[0]);
      var rest := AllLaneWrites(body, total, ws[1..]);
      if one.None? || rest.None? then None else Some(one.value + rest.value)
  }

  /// The lanes of the plan for a result in `count` registers.
  function Plan(body: Body, a: Aggregate, count: nat): (r: Option<seq<Lane>>)
    ensures r.Some? ==> |r.value| == count == LaneCount(a.size) && ValidLanes(r.value)
  {
    var ws := AllLaneWrites(body, a.size, a.writes);
    if count != LaneCount(a.size) || ws.None? then None else ApplyAll(FreshLanes(count), ws.value)
  }

  // ---------------------------------------------------------------- no byte is written twice

  predicate Covers(w: LaneWrite, lane: nat, byte: nat) {
    w.lane == lane && (w.TagByte? ==> w.byte == byte) && byte < 8
  }

  ghost predicate Disjoint(v: LaneWrite, w: LaneWrite) {
    forall lane: nat, byte: nat :: !(Covers(v, lane, byte) && Covers(w, lane, byte))
  }

  lemma ApplyMarks(lanes: seq<Lane>, w: LaneWrite, lane: nat, byte: nat)
    requires ValidLanes(lanes) && Apply(lanes, w).Some? && lane < |lanes| && byte < 8
    ensures Apply(lanes, w).value[lane].written[byte] == (lanes[lane].written[byte] || Covers(w, lane, byte))
    ensures Covers(w, lane, byte) ==> !lanes[lane].written[byte]
  {
  }

  /// Exactly the covered bytes become written, and each was unwritten before.
  lemma {:induction false} PlanMarks(lanes: seq<Lane>, ws: seq<LaneWrite>, lane: nat, byte: nat)
    requires ValidLanes(lanes) && ApplyAll(lanes, ws).Some? && lane < |lanes| && byte < 8
    ensures ApplyAll(lanes, ws).value[lane].written[byte] <==>
            lanes[lane].written[byte] || exists i | 0 <= i < |ws| :: Covers(ws[i], lane, byte)
    ensures forall i | 0 <= i < |ws| :: Covers(ws[i], lane, byte) ==> !lanes[lane].written[byte]
    ensures forall i, j | 0 <= i < j < |ws| :: !(Covers(ws[i], lane, byte) && Covers(ws[j], lane, byte))
    decreases |ws|
  {
    if ws != [] {
      ApplyMarks(lanes, ws[0], lane, byte);
      var next, rest := Apply(lanes, ws[0]).value, ws[1..];
      PlanMarks(next, rest, lane, byte);
      assert forall i | 0 < i < |ws| :: ws[i] == rest[i - 1];
      assert forall i | 0 <= i < |rest| :: rest[i] == ws[i + 1];
    }
  }

  lemma WritesAreInLanes(lanes: seq<Lane>, ws: seq<LaneWrite>, i: nat)
    requires ValidLanes(lanes) && ApplyAll(lanes, ws).Some? && i < |ws|
    ensures ws[i].lane < |lanes|
    decreases i
  {
    if i > 0 {
      WritesAreInLanes(Apply(lanes, ws[0]).value, ws[1..], i - 1);
    }
  }

  /// Whatever a plan accepts, no two of its writes share a byte.
  lemma PlannedWritesAreDisjoint(lanes: seq<Lane>, ws: seq<LaneWrite>)
    requires ValidLanes(lanes) && ApplyAll(lanes, ws).Some?
    ensures forall i, j | 0 <= i < j < |ws| :: Disjoint(ws[i], ws[j])
  {
    forall i: nat, j: nat | i < j < |ws| ensures Disjoint(ws[i], ws[j]) {
      forall lane: nat, byte: nat ensures !(Covers(ws[i], lane, byte) && Covers(ws[j], lane, byte)) {
        WritesAreInLanes(lanes, ws, i);
        if Covers(ws[i], lane, byte) {
          PlanMarks(lanes, ws, lane, byte);
        }
      }
    }
  }

  predicate InLanes(w: LaneWrite, count: nat) {
    w.lane < count && (w.TagByte? ==> w.byte < 8)
  }

  /// The lane has none of the bytes of a write.
  ghost predicate Free(l: Lane, w: LaneWrite) {
    |l.written| == 8 && forall byte: nat | byte < 8 && Covers(w, w.lane, byte) :: !l.written[byte]
  }

  lemma FreeWriteIsApplied(lanes: seq<Lane>, w: LaneWrite)
    requires ValidLanes(lanes) && InLanes(w, |lanes|) && Free(lanes[w.lane], w)
    ensures Apply(lanes, w).Some?
  {
    var l := lanes[w.lane];
    if w.Whole? {
      assert forall b: nat | b < 8 :: Covers(w, w.lane, b);
      assert forall b: nat | b < 8 :: !l.written[b];
      assert !l.written[0] && l.source.None?;
      assert l.written == FRESH_LANE.written;
    } else {
      assert Covers(w, w.lane, w.byte);
    }
  }

  lemma StaysFree(lanes: seq<Lane>, v: LaneWrite, w: LaneWrite)
    requires ValidLanes(lanes) && Apply(lanes, v).Some? && InLanes(w, |lanes|) && Free(lanes[w.lane], w) && Disjoint(v, w)
    ensures Free(Apply(lanes, v).value[w.lane], w)
  {
    forall byte: nat | byte < 8 && Covers(w, w.lane, byte) ensures !Apply(lanes, v).value[w.lane].written[byte] {
      ApplyMarks(lanes, v, w.lane, byte);
    }
  }

  lemma {:induction false} DisjointWritesAreApplied(lanes: seq<Lane>, ws: seq<LaneWrite>)
    requires ValidLanes(lanes) && forall i | 0 <= i < |ws| :: InLanes(ws[i], |lanes|) && Free(lanes[ws[i].lane], ws[i])
    requires forall i, j | 0 <= i < j < |ws| :: Disjoint(ws[i], ws[j])
    ensures ApplyAll(lanes, ws).Some?
    decreases |ws|
  {
    if ws != [] {
      FreeWriteIsApplied(lanes, ws[0]);
      var next, rest := Apply(lanes, ws[0]).value, ws[1..];
      forall i | 0 <= i < |rest| ensures InLanes(rest[i], |next|) && Free(next[rest[i].lane], rest[i]) {
        assert rest[i] == ws[i + 1] && InLanes(ws[i + 1], |lanes|);
        StaysFree(lanes, ws[0], ws[i + 1]);
      }
      forall i, j | 0 <= i < j < |rest| ensures Disjoint(rest[i], rest[j]) {
        assert Disjoint(ws[i + 1], ws[j + 1]);
      }
      DisjointWritesAreApplied(next, rest);
    }
  }

  lemma {:induction false} AppliedWritesAreInLanes(lanes: seq<Lane>, ws: seq<LaneWrite>)
    requires ValidLanes(lanes) && ApplyAll(lanes, ws).Some?
    ensures forall i | 0 <= i < |ws| :: InLanes(ws[i], |lanes|)
    decreases |ws|
  {
    if ws != [] {
      AppliedWritesAreInLanes(Apply(lanes, ws[0]).value, ws[1..]);
      assert forall i | 0 < i < |ws| :: ws[i] == ws[1..][i - 1];
    }
  }

  /// Every write lies in lanes of its own bytes.
  ghost predicate Plannable(ws: seq<LaneWrite>, count: nat) {
    && (forall i | 0 <= i < |ws| :: InLanes(ws[i], count))
    && (forall i, j | 0 <= i < j < |ws| :: Disjoint(ws[i], ws[j]))
  }

  /// MAIN RESULT. There is a plan exactly when there is a register for each lane, every write falls on
  /// lanes, and no two of them share a byte.
  lemma PlanIsExact(body: Body, a: Aggregate, count: nat)
    ensures Plan(body, a, count).Some? <==>
            && count == LaneCount(a.size) && AllLaneWrites(body, a.size, a.writes).Some?
            && Plannable(AllLaneWrites(body, a.size, a.writes).value, count)
  {
    hide AllLaneWrites, Disjoint;
    if count == LaneCount(a.size) && AllLaneWrites(body, a.size, a.writes).Some? {
      var ws := AllLaneWrites(body, a.size, a.writes).value;
      if ApplyAll(FreshLanes(count), ws).Some? {
        PlannedWritesAreDisjoint(FreshLanes(count), ws);
        AppliedWritesAreInLanes(FreshLanes(count), ws);
      } else if Plannable(ws, count) {
        DisjointWritesAreApplied(FreshLanes(count), ws);
      }
    }
  }

  // ---------------------------------------------------------------- order does not matter

  lemma WritesCommute(lanes: seq<Lane>, v: LaneWrite, w: LaneWrite)
    requires ValidLanes(lanes) && Apply(lanes, v).Some? && Apply(Apply(lanes, v).value, w).Some?
    ensures Apply(lanes, w).Some?
    ensures Apply(Apply(lanes, w).value, v) == Apply(Apply(lanes, v).value, w)
  {
    var l := lanes[v.lane];
    if v.lane != w.lane {
      assert lanes[v.lane := Apply(lanes, v).value[v.lane]][w.lane] == lanes[w.lane];
      var x, y := Apply(lanes, v).value[v.lane], Apply(lanes, w).value[w.lane];
      assert lanes[v.lane := x][w.lane := y] == lanes[w.lane := y][v.lane := x];
    } else if v.TagByte? {
      assert Apply(lanes, v).value[v.lane].written[v.byte];
      if w.TagByte? {
        assert v.byte != w.byte;
        assert l.written[v.byte := true][w.byte := true] == l.written[w.byte := true][v.byte := true];
        assert l.immediate[v.byte := v.value][w.byte := w.value] == l.immediate[w.byte := w.value][v.byte := v.value];
        var x, y := Apply(Apply(lanes, v).value, w).value, Apply(Apply(lanes, w).value, v).value;
        assert x == y;
      }
    }
  }

  /// One write moves in front of the writes before it.
  lemma {:induction false} WriteMovesToFront(lanes: seq<Lane>, a: seq<LaneWrite>, w: LaneWrite, b: seq<LaneWrite>)
    requires ValidLanes(lanes) && ApplyAll(lanes, a + [w] + b).Some?
    ensures ApplyAll(lanes, [w] + (a + b)) == ApplyAll(lanes, a + [w] + b)
    decreases |a|
  {
    if a == [] {
      assert a + [w] + b == [w] + (a + b);
    } else {
      var v, rest := a[0], a[1..];
      var next := Apply(lanes, v).value;
      assert (a + [w] + b)[0] == v && (a + [w] + b)[1..] == rest + [w] + b;
      WriteMovesToFront(next, rest, w, b);
      assert ([w] + (rest + b))[1..] == rest + b;
      WritesCommute(lanes, v, w);
      assert ([w] + (a + b))[1..] == a + b && (a + b)[0] == v && (a + b)[1..] == rest + b;
    }
  }

  lemma SameElementsEmpty<T>(p: seq<T>)
    requires multiset(p) == multiset{}
    ensures p == []
  {
    assert |p| == |multiset(p)|;
  }

  lemma RemoveSame<T>(a: multiset<T>, x: multiset<T>, b: multiset<T>, c: multiset<T>)
    requires a + x + b == x + c
    ensures a + b == c
  {
    assert a + x + b - x == a + b;
    assert x + c - x == c;
  }

  /// The first element of one order is somewhere in the other.
  lemma FindFirst<T>(p: seq<T>, q: seq<T>) returns (a: seq<T>, b: seq<T>)
    requires multiset(p) == multiset(q) && q != []
    ensures p == a + [q[0]] + b && multiset(a + b) == multiset(q[1..])
  {
    assert q[0] in multiset(p);
    var k :| 0 <= k < |p| && p[k] == q[0];
    a, b := p[..k], p[k + 1..];
    assert p == a + [q[0]] + b;
    assert q == [q[0]] + q[1..];
    RemoveSame(multiset(a), multiset([q[0]]), multiset(b), multiset(q[1..]));
  }

  /// Every order of the lane writes gives the same lanes.
  lemma {:induction false} LaneOrderIsIrrelevant(lanes: seq<Lane>, p: seq<LaneWrite>, q: seq<LaneWrite>)
    requires ValidLanes(lanes) && multiset(p) == multiset(q) && ApplyAll(lanes, p).Some?
    ensures ApplyAll(lanes, q) == ApplyAll(lanes, p)
    decreases |q|
  {
    if q == [] {
      SameElementsEmpty(p);
    } else {
      var w := q[0];
      var a, b := FindFirst(p, q);
      WriteMovesToFront(lanes, a, w, b);
      var front := [w] + (a + b);
      assert front[0] == w && front[1..] == a + b;
      LaneOrderIsIrrelevant(Apply(lanes, w).value, a + b, q[1..]);
    }
  }

  lemma {:induction false} LaneWritesAppended(body: Body, total: nat, a: seq<Write>, b: seq<Write>)
    requires AllLaneWrites(body, total, a + b).Some?
    ensures AllLaneWrites(body, total, a).Some? && AllLaneWrites(body, total, b).Some?
    ensures AllLaneWrites(body, total, a + b).value == AllLaneWrites(body, total, a).value + AllLaneWrites(body, total, b).value
  {
    if a == [] {
      assert a + b == b;
    } else {
      assert (a + b)[0] == a[0] && (a + b)[1..] == a[1..] + b;
      LaneWritesAppended(body, total, a[1..], b);
    }
  }

  lemma {:induction false} LaneWritesJoin(body: Body, total: nat, a: seq<Write>, b: seq<Write>)
    requires AllLaneWrites(body, total, a).Some? && AllLaneWrites(body, total, b).Some?
    ensures AllLaneWrites(body, total, a + b).Some?
  {
    if a == [] {
      assert a + b == b;
    } else {
      assert (a + b)[0] == a[0] && (a + b)[1..] == a[1..] + b;
      LaneWritesJoin(body, total, a[1..], b);
    }
  }

  lemma {:induction false} ReorderedWrites(body: Body, total: nat, p: seq<Write>, q: seq<Write>)
    requires multiset(p) == multiset(q) && AllLaneWrites(body, total, p).Some?
    ensures AllLaneWrites(body, total, q).Some?
    ensures multiset(AllLaneWrites(body, total, p).value) == multiset(AllLaneWrites(body, total, q).value)
    decreases |q|
  {
    if q == [] {
      SameElementsEmpty(p);
    } else {
      var w := q[0];
      var a, b := FindFirst(p, q);
      assert p == a + ([w] + b);
      LaneWritesAppended(body, total, a, [w] + b);
      LaneWritesAppended(body, total, [w], b);
      LaneWritesJoin(body, total, a, b);
      LaneWritesAppended(body, total, a, b);
      ReorderedWrites(body, total, a + b, q[1..]);
    }
  }

  /// Two recipes with the same writes in any order have the same plan, or none.
  lemma PlanIgnoresOrder(body: Body, a: Aggregate, b: Aggregate, count: nat)
    requires a.size == b.size && multiset(a.writes) == multiset(b.writes)
    ensures Plan(body, a, count) == Plan(body, b, count)
  {
    if Plan(body, a, count).Some? {
      OrderKeepsPlan(body, a, b, count);
    } else if Plan(body, b, count).Some? {
      OrderKeepsPlan(body, b, a, count);
    }
  }

  lemma OrderKeepsPlan(body: Body, a: Aggregate, b: Aggregate, count: nat)
    requires a.size == b.size && multiset(a.writes) == multiset(b.writes) && Plan(body, a, count).Some?
    ensures Plan(body, b, count) == Plan(body, a, count)
  {
    hide AllLaneWrites, ApplyAll, Apply, LaneWrites;
    ReorderedWrites(body, a.size, a.writes, b.writes);
    var p, q := AllLaneWrites(body, a.size, a.writes).value, AllLaneWrites(body, a.size, b.writes).value;
    LaneOrderIsIrrelevant(FreshLanes(count), p, q);
  }
}
