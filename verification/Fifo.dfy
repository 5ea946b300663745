/** The primitive channel sc_fifo: a ring buffer whose contents become visible at the end of a delta cycle. */
module Fifo {

  // ----- what the channel is for

  /**
   * written is every value accepted so far, in order, and taken the number of them that have been read.
   * visible and reclaimed are the values of |written| and taken at the last update.
   */
  datatype Channel<T> = Channel(size: nat, written: seq<T>, taken: nat, visible: nat, reclaimed: nat) {
    ghost predicate Valid() {
      reclaimed <= taken <= visible <= |written| <= reclaimed + size
    }

    ghost function Available(): int {
      visible - taken
    }

    ghost function Free(): int {
      size - (visible - reclaimed) - (|written| - visible)
    }
  }

  datatype Operation<T> = Read | Write(value: T) | Update

  /** What an operation does, and the values that it hands to the reader. */
  ghost function Apply<T>(op: Operation<T>, c: Channel<T>): (r: (Channel<T>, seq<T>))
    requires c.Valid()
    ensures r.0.Valid() && r.0.size == c.size && c.written <= r.0.written
  {
    match op
    case Read =>
      if c.Available() == 0 then (c, []) else (c.(taken := c.taken + 1), [c.written[c.taken]])
    case Write(v) =>
      if c.Free() == 0 then (c, []) else (c.(written := c.written + [v]), [])
    case Update =>
      (c.(visible := |c.written|, reclaimed := c.taken), [])
  }

  ghost function Run<T>(ops: seq<Operation<T>>, c: Channel<T>): (r: (Channel<T>, seq<T>))
    requires c.Valid()
    ensures r.0.Valid() && r.0.size == c.size && c.written <= r.0.written
  {
    if |ops| == 0 then (c, [])
    else
      var (c1, out1) := Run(ops[..|ops| - 1], c);
      var (c2, out2) := Apply(ops[|ops| - 1], c1);
      (c2, out1 + out2)
  }

  ghost function Fresh<T>(size: nat): (c: Channel<T>)
    ensures c.Valid()
  {
    Channel(size, [], 0, 0, 0)
  }

  /** The values that a run accepts from the writer: those of the writes that find room, in order. */
  ghost function Accepted<T>(ops: seq<Operation<T>>, c: Channel<T>): seq<T>
    requires c.Valid()
  {
    if |ops| == 0 then []
    else
      var rest, op := ops[..|ops| - 1], ops[|ops| - 1];
      Accepted(rest, c) + if op.Write? && Run(rest, c).0.Free() != 0 then [op.value] else []
  }

  // ----- whole runs

  /** Over any run, what is read continues what was read before, in the order it was written. */
  lemma {:induction false} ReadsInOrder<T>(ops: seq<Operation<T>>, c: Channel<T>)
    requires c.Valid()
    ensures var (c', out) := Run(ops, c);
            c.written <= c'.written && c.taken <= c'.taken && out == c'.written[c.taken..c'.taken]
  {
    if |ops| > 0 {
      var rest, op := ops[..|ops| - 1], ops[|ops| - 1];
      ReadsInOrder(rest, c);
      var c1 := Run(rest, c).0;
      RunLast(rest, op, c);
      assert ops == rest + [op];
      hide Run;
      ReadStep(op, c1);
      var c2 := Apply(op, c1).0;
      hide Apply;
      SplitRange(c1.written, c2.written, c.taken, c1.taken, c2.taken);
    }
  }

  lemma ReadStep<T>(op: Operation<T>, c: Channel<T>)
    requires c.Valid()
    ensures var (c', out) := Apply(op, c);
            c.written <= c'.written && c.taken <= c'.taken && out == c'.written[c.taken..c'.taken]
  {}

  lemma SplitRange<T>(s: seq<T>, t: seq<T>, a: nat, b: nat, d: nat)
    requires s <= t && a <= b <= |s| && b <= d <= |t|
    ensures t[a..d] == s[a..b] + t[b..d]
  {}

  /** Over any run, the channel keeps exactly the values of the writes that found room, in order. */
  lemma {:induction false} AcceptedAreKept<T>(ops: seq<Operation<T>>, c: Channel<T>)
    requires c.Valid()
    ensures Run(ops, c).0.written == c.written + Accepted(ops, c)
  {
    if |ops| > 0 {
      var rest, op := ops[..|ops| - 1], ops[|ops| - 1];
      AcceptedAreKept(rest, c);
      RunLast(rest, op, c);
      assert ops == rest + [op];
    }
  }

  /** From a fresh channel, the values read are a prefix of the values accepted. */
  lemma PrefixOfWrites<T>(ops: seq<Operation<T>>, size: nat)
    ensures Run(ops, Fresh(size)).1 <= Accepted(ops, Fresh(size))
  {
    ReadsInOrder(ops, Fresh(size));
    AcceptedAreKept(ops, Fresh(size));
    assert [] + Accepted(ops, Fresh(size)) == Accepted(ops, Fresh(size));
  }

  ghost predicate OneDelta<T>(ops: seq<Operation<T>>) {
    forall i :: 0 <= i < |ops| ==> ops[i] != Update
  }

  /**
   * Without an update, nothing written since the last one can be read, and nothing read since then makes
   * room: reads come from the values visible at the start, writes fit in the space free at the start.
   */
  lemma {:induction false} DeltaVisibility<T>(ops: seq<Operation<T>>, c: Channel<T>)
    requires c.Valid() && OneDelta(ops)
    ensures var (c', out) := Run(ops, c);
            && c'.visible == c.visible && c'.reclaimed == c.reclaimed
            && out <= c.written[c.taken..c.visible] && |Accepted(ops, c)| <= c.Free()
  {
    ReadsInOrder(ops, c);
    AcceptedAreKept(ops, c);
    if |ops| > 0 {
      DeltaVisibility(ops[..|ops| - 1], c);
      var c1 := Run(ops[..|ops| - 1], c).0;
      ReadsInOrder(ops[..|ops| - 1], c);
      assert c.written[c.taken..c.visible] == c1.written[c.taken..c.visible];
    }
  }

  ghost function Only<T>(ops: seq<Operation<T>>, reader: bool): seq<Operation<T>> {
    if |ops| == 0 then []
    else
      var rest := Only(ops[..|ops| - 1], reader);
      if ops[|ops| - 1].Read? == reader then rest + [ops[|ops| - 1]] else rest
  }

  lemma {:induction false} OnlyDelta<T>(ops: seq<Operation<T>>, reader: bool)
    requires OneDelta(ops)
    ensures OneDelta(Only(ops, reader))
    ensures forall i :: 0 <= i < |Only(ops, reader)| ==> Only(ops, reader)[i].Read? == reader
  {
    if |ops| > 0 {
      OnlyDelta(ops[..|ops| - 1], reader);
    }
  }

  /**
   * Within a delta cycle the reader and the writer do not see each other: however their operations are
   * interleaved, the reader gets what it would get alone and the writer's values are those accepted alone.
   */
  lemma {:induction false} NoInterference<T>(ops: seq<Operation<T>>, c: Channel<T>)
    requires c.Valid() && OneDelta(ops)
    ensures var (c', out) := Run(ops, c);
            && out == Run(Only(ops, true), c).1
            && c'.taken == Run(Only(ops, true), c).0.taken
            && c'.written == Run(Only(ops, false), c).0.written
  {
    if |ops| > 0 {
      var n := |ops| - 1;
      var rest, op := ops[..n], ops[n];
      assert ops == rest + [op];
      NoInterference(rest, c);
      OnlyDelta(rest, true);
      OnlyDelta(rest, false);
      DeltaVisibility(rest, c);
      DeltaVisibility(Only(rest, true), c);
      DeltaVisibility(Only(rest, false), c);
      RunLast(rest, op, c);
      RunLast(Only(rest, true), op, c);
      RunLast(Only(rest, false), op, c);
      assert Only(ops, op.Read?) == Only(rest, op.Read?) + [op] && Only(ops, !op.Read?) == Only(rest, !op.Read?);
      hide Run, Only, Apply;
      if op.Read? {
        ReadAlike(Run(rest, c).0, Run(Only(rest, true), c).0, c);
      } else {
        WriteAlike(Run(rest, c).0, Run(Only(rest, false), c).0, op.value);
      }
    }
  }

  lemma ReadAlike<T>(a: Channel<T>, b: Channel<T>, c: Channel<T>)
    requires a.Valid() && b.Valid() && c.Valid() && c.written <= a.written && c.written <= b.written
    requires a.visible == b.visible == c.visible && a.taken == b.taken
    ensures Apply(Read, a).1 == Apply(Read, b).1 && Apply(Read, a).0.taken == Apply(Read, b).0.taken
    ensures Apply(Read, a).0.written == a.written
  {}

  lemma WriteAlike<T>(a: Channel<T>, b: Channel<T>, v: T)
    requires a.Valid() && b.Valid() && a.size == b.size && a.written == b.written
    requires a.visible == b.visible && a.reclaimed == b.reclaimed
    ensures Apply(Write(v), a).0.written == Apply(Write(v), b).0.written
    ensures Apply(Write(v), a).0.taken == a.taken && Apply(Write(v), a).1 == []
  {}

  lemma RunLast<T>(ops: seq<Operation<T>>, op: Operation<T>, c: Channel<T>)
    requires c.Valid()
    ensures Run(ops + [op], c).0 == Apply(op, Run(ops, c).0).0
    ensures Run(ops + [op], c).1 == Run(ops, c).1 + Apply(op, Run(ops, c).0).1
  {
    assert (ops + [op])[..|ops|] == ops;
  }

  // ----- filling and draining

  lemma RunNone<T>(c: Channel<T>)
    requires c.Valid()
    ensures Run([], c) == (c, [])
  {}

  lemma {:induction false} RunAppend<T>(a: seq<Operation<T>>, b: seq<Operation<T>>, c: Channel<T>)
    requires c.Valid()
    ensures Run(a + b, c).0 == Run(b, Run(a, c).0).0
    ensures Run(a + b, c).1 == Run(a, c).1 + Run(b, Run(a, c).0).1
  {
    hide Run, Apply;
    var c1 := Run(a, c).0;
    if |b| == 0 {
      RunNone(c1);
      assert a + b == a && b == [];
    } else {
      var n := |b| - 1;
      RunAppend(a, b[..n], c);
      RunLast(a + b[..n], b[n], c);
      RunLast(b[..n], b[n], c1);
      assert a + b == (a + b[..n]) + [b[n]] && b == b[..n] + [b[n]];
    }
  }

  lemma RunOne<T>(op: Operation<T>, c: Channel<T>)
    requires c.Valid()
    ensures Run([op], c) == Apply(op, c)
  {
    hide Run, Apply;
    RunNone(c);
    RunLast([], op, c);
    assert [] + [op] == [op] && [] + Apply(op, c).1 == Apply(op, c).1;
  }

  ghost function Writes<T>(vs: seq<T>): seq<Operation<T>> {
    if |vs| == 0 then [] else Writes(vs[..|vs| - 1]) + [Write(vs[|vs| - 1])]
  }

  ghost function Reads<T>(k: nat): seq<Operation<T>> {
    if k == 0 then [] else Reads(k - 1) + [Read]
  }

  lemma WriteOne<T>(v: T, c: Channel<T>)
    requires c.Valid() && c.Free() > 0
    ensures Run([Write(v)], c) == (c.(written := c.written + [v]), [])
  {
    RunOne(Write(v), c);
  }

  lemma ReadOne<T>(c: Channel<T>)
    requires c.Valid() && c.Available() > 0
    ensures Run([Read], c) == (c.(taken := c.taken + 1), [c.written[c.taken]])
  {
    RunOne(Read, c);
  }

  lemma UpdateOne<T>(c: Channel<T>)
    requires c.Valid()
    ensures Run([Update], c) == (c.(visible := |c.written|, reclaimed := c.taken), [])
  {
    RunOne(Update, c);
  }

  /** Writes that fit in the free space are all accepted. */
  lemma {:induction false} RunWrites<T>(vs: seq<T>, c: Channel<T>)
    requires c.Valid() && |vs| <= c.Free()
    ensures Run(Writes(vs), c) == (c.(written := c.written + vs), [])
  {
    hide Run;
    if |vs| == 0 {
      RunNone(c);
      assert c.written + vs == c.written;
    } else {
      var n := |vs| - 1;
      var c1 := c.(written := c.written + vs[..n]);
      RunWrites(vs[..n], c);
      RunAppend(Writes(vs[..n]), [Write(vs[n])], c);
      WriteOne(vs[n], c1);
      assert c.written + vs[..n] + [vs[n]] == c.written + vs;
    }
  }

  /** Reads return the available values from the oldest on. */
  lemma {:induction false} RunReads<T>(k: nat, c: Channel<T>)
    requires c.Valid() && k <= c.Available()
    ensures Run(Reads<T>(k), c) == (c.(taken := c.taken + k), c.written[c.taken..c.taken + k])
  {
    hide Run;
    if k == 0 {
      RunNone(c);
      assert c.written[c.taken..c.taken] == [];
    } else {
      var c1 := c.(taken := c.taken + (k - 1));
      RunReads(k - 1, c);
      RunAppend(Reads<T>(k - 1), [Read], c);
      ReadOne(c1);
      var w, t := c.written, c.taken;
      assert w[t..t + (k - 1)] + [w[t + (k - 1)]] == w[t..t + k];
    }
  }

  /** After an update everything unread is available, and everything else is free. */
  lemma UpdateSettles<T>(c: Channel<T>)
    requires c.Valid()
    ensures var r := Apply(Update, c).0;
            && r.written == c.written && r.taken == c.taken
            && r.Available() == |c.written| - c.taken && r.Free() == c.size - (|c.written| - c.taken)
  {}

  /** One delta cycle of writes, and one of reads. */
  ghost function Filling<T>(vs: seq<T>): seq<Operation<T>> {
    Writes(vs) + [Update]
  }

  ghost function Draining<T>(k: nat): seq<Operation<T>> {
    Reads(k) + [Update]
  }

  lemma Fill<T>(vs: seq<T>, c: Channel<T>)
    requires c.Valid() && |vs| <= c.Free()
    ensures Run(Filling(vs), c)
         == (c.(written := c.written + vs, visible := |c.written + vs|, reclaimed := c.taken), [])
  {
    hide Run;
    var c1 := c.(written := c.written + vs);
    RunWrites(vs, c);
    RunAppend(Writes(vs), [Update], c);
    UpdateOne(c1);
  }

  lemma Drain<T>(k: nat, c: Channel<T>)
    requires c.Valid() && k <= c.Available()
    ensures Run(Draining<T>(k), c)
         == (c.(taken := c.taken + k, visible := |c.written|, reclaimed := c.taken + k),
             c.written[c.taken..c.taken + k])
  {
    hide Run;
    var c1 := c.(taken := c.taken + k);
    RunReads(k, c);
    RunAppend(Reads<T>(k), [Update], c);
    UpdateOne(c1);
    assert c.written[c.taken..c.taken + k] + [] == c.written[c.taken..c.taken + k];
  }

  /** Values that fit come out, all of them and in order, after an update; the next update frees their room. */
  lemma FillAndDrain<T>(vs: seq<T>, c: Channel<T>)
    requires c.Valid() && c.taken == |c.written| && |vs| <= c.Free()
    ensures var (r, out) := Run(Filling(vs) + Draining<T>(|vs|), c);
            out == vs && r.written == c.written + vs && r.taken == |r.written| && r.Free() == c.size
  {
    hide Run, Filling, Draining;
    var k, n := |vs|, |c.written|;
    var c1 := c.(written := c.written + vs, visible := n + k, reclaimed := n);
    Fill(vs, c);
    Drain(k, c1);
    RunAppend(Filling(vs), Draining<T>(k), c);
    Tail(c.written, vs);
  }

  lemma Tail<T>(a: seq<T>, b: seq<T>)
    ensures (a + b)[|a|..|a| + |b|] == b && [] + b == b
  {}

  /** A new channel takes up to size values, returns them after an update, and after another takes as many again. */
  lemma FillTwice<T>(vs: seq<T>, us: seq<T>, size: nat)
    requires |vs| <= size && |us| <= size
    ensures var (r, out) := Run((Filling(vs) + Draining<T>(|vs|)) + Writes(us), Fresh(size));
            out == vs && r.written == vs + us
  {
    var c := Fresh<T>(size);
    var cycle := Filling(vs) + Draining<T>(|vs|);
    hide Run, Apply;
    FillAndDrain(vs, c);
    RunAppend(cycle, Writes(us), c);
    RunWrites(us, Run(cycle, c).0);
    assert [] + vs == vs && vs + [] == vs;
  }

  // ----- the implementation

  class ScFifo<T(0)> {
    ghost var state: Channel<T>
    const mSize: nat
    const mBuf: array<T>
    const blank: T
    var mFree: int
    var mRi: int
    var mWi: int
    var mNumReadable: int
    var mNumRead: int
    var mNumWritten: int

    ghost function Used(): int
      reads this
    {
      |state.written| - state.taken
    }

    /** The fields hold the state: the ring buffer its unread values, the counters its four positions. */
    ghost predicate Valid()
      reads this, mBuf
    {
      && state.Valid() && mSize > 0 && state.size == mSize && mBuf.Length == mSize
      && 0 <= mRi < mSize && mFree == mSize - Used() && mWi == Wrap(mRi + Used(), mSize)
      && (forall k :: 0 <= k < mSize && Offset(mRi, k, mSize) < Used() ==>
            mBuf[k] == state.written[state.taken + Offset(mRi, k, mSize)])
      && mNumReadable == state.visible - state.reclaimed
      && mNumRead == state.taken - state.reclaimed
      && mNumWritten == |state.written| - state.visible
    }

    constructor (size: nat, blank: T)
      requires size > 0
      ensures Valid() && state == Fresh(size) && fresh(mBuf)
    {
      mSize := size;
      mBuf := new T[size];
      this.blank := blank;
      mFree := size;
      mRi := 0;
      mWi := 0;
      mNumReadable := 0;
      mNumRead := 0;
      mNumWritten := 0;
      state := Fresh(size);
    }

    /** A size that is not positive is reported as an error. */
    static method Create(size: int, blank: T) returns (fifo: ScFifo?<T>)
      ensures fifo == null <==> size <= 0
      ensures fifo != null ==> fresh(fifo) && fifo.Valid() && fifo.state == Fresh(size)
    {
      if size <= 0 {
        return null;
      }
      fifo := new ScFifo(size, blank);
    }

    function NumAvailable(): int
      reads this
    {
      mNumReadable - mNumRead
    }

    function NumFree(): int
      reads this
    {
      mSize - mNumReadable - mNumWritten
    }

    /** The counters tell how full the buffer is, so buf_read and buf_write never fail when they are called. */
    lemma CountersAgree()
      requires Valid()
      ensures mSize - mFree == mNumReadable - mNumRead + mNumWritten
      ensures NumAvailable() == state.Available() && NumFree() == state.Free()
      ensures NumAvailable() != 0 ==> mFree != mSize
      ensures NumFree() != 0 ==> mFree != 0
    {}

    method NbRead() returns (ok: bool, value: T)
      requires Valid()
      modifies this, mBuf
      ensures Valid()
      ensures state == Apply(Read, old(state)).0
      ensures ok == (old(state).Available() != 0)
      ensures Apply(Read, old(state)).1 == if ok then [value] else []
      ensures if ok then state == old(state).(taken := old(state).taken + 1) else state == old(state)
      ensures ok ==> value == old(state).written[old(state).taken]
    {
      value := blank;
      if NumAvailable() == 0 {
        return false, value;
      }
      NextIndex(mRi, mSize);
      hide Wrap, Offset;
      NextCell(mRi, Used(), mSize);
      mNumRead := mNumRead + 1;
      ok, value := BufRead();
      state := state.(taken := state.taken + 1);
    }

    method NbWrite(value: T) returns (ok: bool)
      requires Valid()
      modifies this, mBuf
      ensures Valid()
      ensures state == Apply(Write(value), old(state)).0
      ensures ok == (old(state).Free() != 0)
      ensures if ok then state == old(state).(written := old(state).written + [value]) else state == old(state)
    {
      if NumFree() == 0 {
        return false;
      }
      hide Offset;
      NextIndex(mWi, mSize);
      FreeCell(mRi, Used(), mSize);
      mNumWritten := mNumWritten + 1;
      ok := BufWrite(value);
      state := state.(written := state.written + [value]);
    }

    method BufRead() returns (ok: bool, value: T)
      requires mSize > 0 && mBuf.Length == mSize && 0 <= mRi < mSize
      modifies `mFree, `mRi, mBuf
      ensures ok == (old(mFree) != mSize)
      ensures !ok ==> mFree == old(mFree) && mRi == old(mRi) && mBuf[..] == old(mBuf[..])
      ensures ok ==> mFree == old(mFree) + 1 && mRi == (old(mRi) + 1) % mSize && value == old(mBuf[mRi])
      ensures ok ==> mBuf[..] == old(mBuf[..])[old(mRi) := blank]
    {
      value := blank;
      if mFree == mSize {
        return false, value;
      }
      value := mBuf[mRi];
      mBuf[mRi] := blank;
      mRi := (mRi + 1) % mSize;
      mFree := mFree + 1;
      return true, value;
    }

    method BufWrite(value: T) returns (ok: bool)
      requires mSize > 0 && mBuf.Length == mSize && 0 <= mWi < mSize
      modifies `mFree, `mWi, mBuf
      ensures ok == (old(mFree) != 0)
      ensures !ok ==> mFree == old(mFree) && mWi == old(mWi) && mBuf[..] == old(mBuf[..])
      ensures ok ==> mFree == old(mFree) - 1 && mWi == (old(mWi) + 1) % mSize
      ensures ok ==> mBuf[..] == old(mBuf[..])[old(mWi) := value]
    {
      if mFree == 0 {
        return false;
      }
      mBuf[mWi] := value;
      mWi := (mWi + 1) % mSize;
      mFree := mFree - 1;
      return true;
    }

    /** The end of a delta cycle; the results say which of the two events is notified. */
    method Update() returns (dataRead: bool, dataWritten: bool)
      requires Valid()
      modifies this
      ensures Valid()
      ensures state == Apply(Operation<T>.Update, old(state)).0
      ensures state.size == old(state).size && state.written == old(state).written && state.taken == old(state).taken
      ensures state.Available() == |state.written| - state.taken
      ensures state.Free() == mSize - (|state.written| - state.taken)
      ensures dataRead == (old(state).taken > old(state).reclaimed)
      ensures dataWritten == (|old(state).written| > old(state).visible)
    {
      dataRead := mNumRead > 0;
      dataWritten := mNumWritten > 0;
      mNumReadable := mSize - mFree;
      mNumRead := 0;
      mNumWritten := 0;
      state := state.(visible := |state.written|, reclaimed := state.taken);
    }
  }

  ghost function Wrap(i: int, size: int): int {
    if i < size then i else i - size
  }

  /** How many places cell k lies after the read index. */
  ghost function Offset(ri: int, k: int, size: int): int {
    if k < ri then k - ri + size else k - ri
  }

  /** Advancing the read index moves every other cell one place nearer, and the cell just read to the far end. */
  lemma NextCell(ri: int, used: int, size: int)
    requires 0 <= ri < size && 0 < used <= size
    ensures Offset(ri, ri, size) == 0
    ensures 0 <= Wrap(ri + 1, size) < size && Wrap(Wrap(ri + 1, size) + used - 1, size) == Wrap(ri + used, size)
    ensures forall k :: 0 <= k < size ==>
              Offset(Wrap(ri + 1, size), k, size) == if k == ri then size - 1 else Offset(ri, k, size) - 1
  {}

  /** The write index is the cell that lies as far ahead as there are used cells. */
  lemma FreeCell(ri: int, used: int, size: int)
    requires 0 <= ri < size && 0 <= used < size
    ensures 0 <= Wrap(ri + used, size) < size
    ensures forall k :: 0 <= k < size ==> (Offset(ri, k, size) == used <==> k == Wrap(ri + used, size))
  {}

  lemma NextIndex(i: int, size: int)
    requires 0 <= i < size
    ensures (i + 1) % size == Wrap(i + 1, size)
  {}
}
