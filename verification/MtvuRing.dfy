/**
  The MTVU ring: the EE thread writes records, each in one piece, and starts again at the front
  with a NULL record when one does not fit; the VU thread reads them word by word. The two
  threads interleave freely; each load, store and word access is a step of its own.
 */
module MtvuRing {
  import opened Sequences

  // ---------------------------------------------------------------------------------------
  // Records
  // ---------------------------------------------------------------------------------------

  const VIF_WORDS: nat := 8
  const REG_WORDS: nat := 6
  const NULL_TAG: nat := 6
  const SAFETY: nat := 4096

  /** Bytes rounded up to words. */
  function WordsOf(bytes: nat): (n: nat)
    ensures bytes <= 4 * n < bytes + 4
  {
    (bytes + 3) / 4
  }

  datatype Record =
    | ExecuteVu(addr: nat, top: nat, itop: nat)
    | WriteMicro(addr: nat, size: nat, data: seq<nat>)
    | WriteData(addr: nat, size: nat, data: seq<nat>)
    | WriteCol(col: seq<nat>)
    | WriteRow(row: seq<nat>)
    | VifUnpack(vif: seq<nat>, regs: seq<nat>, size: nat, data: seq<nat>)

  /** As the EE thread sends them: of at most SAFETY words. */
  predicate Proper(r: Record) {
    |Encode(r)| <= SAFETY &&
    match r
    case ExecuteVu(_, _, _) => true
    case WriteMicro(_, size, data) => |data| == WordsOf(size)
    case WriteData(_, size, data) => |data| == WordsOf(size)
    case WriteCol(col) => |col| == 4
    case WriteRow(row) => |row| == 4
    case VifUnpack(vif, regs, size, data) => |vif| == VIF_WORDS && |regs| == REG_WORDS && |data| == WordsOf(size)
  }

  function Encode(r: Record): (w: seq<nat>)
    ensures |w| > 0
  {
    match r
    case ExecuteVu(addr, top, itop) => [0, addr, top, itop]
    case WriteMicro(addr, size, data) => [1, addr, size] + data
    case WriteData(addr, size, data) => [2, addr, size] + data
    case WriteCol(col) => [3] + col
    case WriteRow(row) => [4] + row
    case VifUnpack(vif, regs, size, data) => [5] + vif + regs + [size] + data
  }

  /** How long the record is that starts with the words read so far, once they say so. */
  function Length(w: seq<nat>): Option<nat> {
    if w == [] then None
    else if w[0] == 0 then Some(4)
    else if w[0] == 1 || w[0] == 2 then if |w| < 3 then None else Some(3 + WordsOf(w[2]))
    else if w[0] == 3 || w[0] == 4 then Some(5)
    else if w[0] == 5 then
      if |w| < 2 + VIF_WORDS + REG_WORDS then None
      else Some(2 + VIF_WORDS + REG_WORDS + WordsOf(w[1 + VIF_WORDS + REG_WORDS]))
    else Some(1)
  }

  /** The record that the words make up. */
  function Decode(w: seq<nat>): Record
    requires Length(w) == Some(|w|) && w[0] <= 5
  {
    if w[0] == 0 then ExecuteVu(w[1], w[2], w[3])
    else if w[0] == 1 then WriteMicro(w[1], w[2], w[3..])
    else if w[0] == 2 then WriteData(w[1], w[2], w[3..])
    else if w[0] == 3 then WriteCol(w[1..])
    else if w[0] == 4 then WriteRow(w[1..])
    else
      VifUnpack(w[1..1 + VIF_WORDS], w[1 + VIF_WORDS..1 + VIF_WORDS + REG_WORDS], w[1 + VIF_WORDS + REG_WORDS],
                w[2 + VIF_WORDS + REG_WORDS..])
  }

  /** Reading a record's words one by one, the reader stops exactly at its end and has the record. */
  lemma ReadRecord(r: Record, n: nat)
    requires Proper(r) && n <= |Encode(r)|
    ensures var w := Encode(r)[..n];
      (Length(w) == None || Length(w) == Some(|Encode(r)|)) &&
      (n > 0 ==> w[0] <= 5) &&
      (n == |Encode(r)| ==> Length(w) == Some(n) && Decode(w) == r)
  {
    var e := Encode(r);
    assert e[..|e|] == e;
    if r.VifUnpack? {
      assert e[1..1 + VIF_WORDS] == r.vif;
      assert e[1 + VIF_WORDS..1 + VIF_WORDS + REG_WORDS] == r.regs;
      assert e[2 + VIF_WORDS + REG_WORDS..] == r.data;
    } else if r.WriteMicro? || r.WriteData? {
      assert e[3..] == r.data;
    } else if r.WriteCol? {
      assert e[1..] == r.col;
    } else if r.WriteRow? {
      assert e[1..] == r.row;
    }
  }

  // ---------------------------------------------------------------------------------------
  // The two threads
  // ---------------------------------------------------------------------------------------

  datatype EePc =
    | Idle | Reserve(r: Record) | WaitNull(r: Record) | WriteNull(r: Record) | CommitNull(r: Record)
    | WaitRoom(r: Record) | Writing(r: Record, done: nat) | Commit(r: Record)

  datatype VuPc = Waiting | Reading(words: seq<nat>) | CommitRead

  /**
    m_write_pos and m_read_pos are the threads' own positions, the other two the committed ones.
    `lapEnd` records where the last NULL record was written, `committed` and `executed` the
    records that the two threads have finished.
   */
  datatype State = State(
    buffer: seq<nat>, ee: EePc, vu: VuPc,
    writePos: nat, atoWrite: nat, readPos: nat, atoRead: nat,
    lapEnd: nat, committed: seq<Record>, executed: seq<Record>)

  /** WaitOnSize: the reader is behind the writer, or far enough in front of it. */
  predicate Room(s: State, size: nat) {
    s.atoRead <= s.writePos || s.atoRead > s.writePos + size + SAFETY
  }

  ghost predicate EeStep(s: State, t: State) {
    match s.ee
    case Idle => exists r :: Proper(r) && |Encode(r)| <= SAFETY && |Encode(r)| < |s.buffer| && t == s.(ee := Reserve(r))
    case Reserve(r) => t == s.(ee := if s.writePos + |Encode(r)| > |s.buffer| - 1 then WaitNull(r) else WaitRoom(r))
    case WaitNull(r) => t == if Room(s, 1) then s.(ee := WriteNull(r)) else s
    case WriteNull(r) =>
      s.writePos < |s.buffer| &&
      t == s.(buffer := s.buffer[s.writePos := NULL_TAG], lapEnd := s.writePos, writePos := 0, ee := CommitNull(r))
    case CommitNull(r) => t == s.(atoWrite := s.writePos, ee := WaitRoom(r))
    case WaitRoom(r) => t == if Room(s, |Encode(r)|) then s.(ee := Writing(r, 0)) else s
    case Writing(r, done) =>
      done < |Encode(r)| && s.writePos < |s.buffer| &&
      t == s.(buffer := s.buffer[s.writePos := Encode(r)[done]], writePos := s.writePos + 1,
              ee := if done + 1 == |Encode(r)| then Commit(r) else Writing(r, done + 1))
    case Commit(r) => t == s.(atoWrite := s.writePos, committed := s.committed + [r], ee := Idle)
  }

  predicate VuStep(s: State, t: State) {
    match s.vu
    case Waiting => s.atoRead != s.atoWrite && t == s.(vu := Reading([]))
    case Reading(words) =>
      if Length(words) == Some(|words|) then
        t == if words[0] > 5 then s.(readPos := 0, vu := CommitRead)
             else s.(executed := s.executed + [Decode(words)], vu := CommitRead)
      else
        s.readPos < |s.buffer| &&
        t == s.(vu := Reading(words + [s.buffer[s.readPos]]), readPos := s.readPos + 1)
    case CommitRead => t == s.(atoRead := s.readPos, vu := Waiting)
  }

  ghost predicate Next(s: State, t: State) {
    EeStep(s, t) || VuStep(s, t)
  }

  ghost predicate Initial(s: State) {
    s.ee == Idle && s.vu == Waiting && s.committed == s.executed == [] && |s.buffer| > 0 &&
    s.writePos == s.atoWrite == s.readPos == s.atoRead == 0
  }

  /** When the writer starts again at the front, the committed read position is not at the front. */
  predicate WrapsBehindReader(s: State) {
    s.ee.CommitNull? ==> s.atoRead != 0
  }

  // ---------------------------------------------------------------------------------------
  // The invariant
  // ---------------------------------------------------------------------------------------

  ghost predicate At(b: seq<nat>, from: nat, words: seq<nat>) {
    from + |words| <= |b| && b[from..from + |words|] == words
  }

  /** The records lie one behind the other from `from` to `to`. */
  ghost predicate Tiles(b: seq<nat>, from: nat, to: nat, rs: seq<Record>)
    decreases rs
  {
    if rs == [] then from == to
    else Proper(rs[0]) && At(b, from, Encode(rs[0])) && Tiles(b, from + |Encode(rs[0])|, to, rs[1..])
  }

  /** The records lie from `from` to the NULL record at `end`, and then from the front to `to`. */
  ghost predicate WrapTiles(b: seq<nat>, from: nat, end: nat, to: nat, rs: seq<Record>)
    decreases rs
  {
    if from == end then At(b, end, [NULL_TAG]) && Tiles(b, 0, to, rs)
    else
      from < end && rs != [] && Proper(rs[0]) && At(b, from, Encode(rs[0])) &&
      WrapTiles(b, from + |Encode(rs[0])|, end, to, rs[1..])
  }

  /** Two buffers that agree from `from` to `to`. */
  ghost predicate Same(a: seq<nat>, b: seq<nat>, from: nat, to: nat) {
    |a| == |b| && forall i :: from <= i < to && i < |a| ==> a[i] == b[i]
  }

  lemma {:induction false} TilesOrder(b: seq<nat>, from: nat, to: nat, rs: seq<Record>)
    requires Tiles(b, from, to, rs)
    ensures from <= to && (rs == [] <==> from == to)
    decreases rs
  {
    hide Encode, Proper;
    if rs != [] { TilesOrder(b, from + |Encode(rs[0])|, to, rs[1..]); }
  }

  lemma {:induction false} WrapTilesOrder(b: seq<nat>, from: nat, end: nat, to: nat, rs: seq<Record>)
    requires WrapTiles(b, from, end, to, rs)
    ensures from <= end < |b|
    decreases rs
  {
    if from < end { WrapTilesOrder(b, from + |Encode(rs[0])|, end, to, rs[1..]); }
  }

  lemma {:induction false} TilesSame(a: seq<nat>, b: seq<nat>, from: nat, to: nat, rs: seq<Record>)
    requires Tiles(a, from, to, rs) && Same(a, b, from, to)
    ensures Tiles(b, from, to, rs)
    decreases rs
  {
    hide Encode, Proper;
    if rs != [] {
      var next := from + |Encode(rs[0])|;
      TilesOrder(a, next, to, rs[1..]);
      assert a[from..next] == b[from..next];
      TilesSame(a, b, next, to, rs[1..]);
    }
  }

  lemma {:induction false} WrapTilesSame(a: seq<nat>, b: seq<nat>, from: nat, end: nat, to: nat, rs: seq<Record>)
    requires WrapTiles(a, from, end, to, rs) && Same(a, b, from, end + 1) && Same(a, b, 0, to)
    ensures WrapTiles(b, from, end, to, rs)
    decreases rs
  {
    hide Encode, Proper;
    if from == end {
      assert a[end..end + 1] == b[end..end + 1];
      TilesSame(a, b, 0, to, rs);
    } else {
      var next := from + |Encode(rs[0])|;
      WrapTilesOrder(a, next, end, to, rs[1..]);
      assert a[from..next] == b[from..next];
      WrapTilesSame(a, b, next, end, to, rs[1..]);
    }
  }

  lemma {:induction false} TilesAppend(b: seq<nat>, from: nat, to: nat, rs: seq<Record>, r: Record)
    requires Tiles(b, from, to, rs) && Proper(r) && At(b, to, Encode(r))
    ensures Tiles(b, from, to + |Encode(r)|, rs + [r])
    decreases rs
  {
    hide Encode, Proper;
    if rs == [] {
      assert rs + [r] == [r];
    } else {
      assert (rs + [r])[1..] == rs[1..] + [r];
      TilesAppend(b, from + |Encode(rs[0])|, to, rs[1..], r);
    }
  }

  lemma {:induction false} WrapTilesAppend(b: seq<nat>, from: nat, end: nat, to: nat, rs: seq<Record>, r: Record)
    requires WrapTiles(b, from, end, to, rs) && Proper(r) && At(b, to, Encode(r))
    ensures WrapTiles(b, from, end, to + |Encode(r)|, rs + [r])
    decreases rs
  {
    hide Encode, Proper;
    if from == end {
      TilesAppend(b, 0, to, rs, r);
    } else {
      assert (rs + [r])[1..] == rs[1..] + [r];
      WrapTilesAppend(b, from + |Encode(rs[0])|, end, to, rs[1..], r);
    }
  }

  /** With a NULL record behind them, the records of a lap can be followed by a new lap. */
  lemma {:induction false} TilesWrap(b: seq<nat>, from: nat, end: nat, rs: seq<Record>)
    requires Tiles(b, from, end, rs) && At(b, end, [NULL_TAG])
    ensures WrapTiles(b, from, end, 0, rs)
    decreases rs
  {
    TilesOrder(b, from, end, rs);
    if rs != [] {
      TilesWrap(b, from + |Encode(rs[0])|, end, rs[1..]);
    }
  }

  // ---------------------------------------------------------------------------------------

  /** The records that the committed positions enclose. */
  function Unread(s: State): seq<Record>
  {
    var n := |s.executed| - if s.vu.CommitRead? && s.readPos != 0 then 1 else 0;
    if 0 <= n <= |s.committed| then s.committed[n..] else []
  }

  predicate Wrapped(s: State) {
    s.atoWrite < s.atoRead
  }

  ghost predicate RingOk(s: State) {
    s.atoRead < |s.buffer| && s.atoWrite < |s.buffer| && s.executed <= s.committed &&
    if Wrapped(s) then WrapTiles(s.buffer, s.atoRead, s.lapEnd, s.atoWrite, Unread(s))
    else Tiles(s.buffer, s.atoRead, s.atoWrite, Unread(s))
  }

  /** The reader is at the NULL record. */
  predicate AtNull(s: State) {
    Wrapped(s) && s.atoRead == s.lapEnd
  }

  ghost predicate VuOk(s: State) {
    match s.vu
    case Waiting => s.readPos == s.atoRead
    case Reading(words) =>
      s.readPos == s.atoRead + |words| && s.atoRead != s.atoWrite &&
      if AtNull(s) then words <= [NULL_TAG]
      else Unread(s) != [] && words <= Encode(Unread(s)[0])
    case CommitRead =>
      if s.readPos == 0 then AtNull(s)
      else
        !AtNull(s) && s.atoRead != s.atoWrite && s.executed != [] && Unread(s) != [] &&
        s.readPos == s.atoRead + |Encode(Unread(s)[0])|
  }

  ghost predicate Fits(r: Record, n: nat) {
    Proper(r) && |Encode(r)| <= SAFETY && |Encode(r)| < n
  }

  ghost predicate EeOk(s: State) {
    var n := |s.buffer|;
    match s.ee
    case Idle => s.writePos == s.atoWrite
    case Reserve(r) => Fits(r, n) && s.writePos == s.atoWrite
    case WaitNull(r) => Fits(r, n) && s.writePos == s.atoWrite && s.writePos + |Encode(r)| > n - 1
    case WriteNull(r) => Fits(r, n) && s.writePos == s.atoWrite && !Wrapped(s) && s.atoWrite > 0
    case CommitNull(r) =>
      Fits(r, n) && s.writePos == 0 && !Wrapped(s) && s.lapEnd == s.atoWrite > 0 && At(s.buffer, s.lapEnd, [NULL_TAG])
    case WaitRoom(r) => Fits(r, n) && s.writePos == s.atoWrite && s.writePos + |Encode(r)| <= n - 1
    case Writing(r, done) => done < |Encode(r)| && s.writePos == s.atoWrite + done && Partly(s, r, done)
    case Commit(r) => s.writePos == s.atoWrite + |Encode(r)| && Partly(s, r, |Encode(r)|)
  }

  /** The first words of a record are written behind the committed ones, in room that the reader has left. */
  ghost predicate Partly(s: State, r: Record, done: nat)
    requires done <= |Encode(r)|
  {
    Fits(r, |s.buffer|) && s.atoWrite + |Encode(r)| <= |s.buffer| - 1 && At(s.buffer, s.atoWrite, Encode(r)[..done]) &&
    (Wrapped(s) ==> s.atoWrite + |Encode(r)| < s.atoRead)
  }

  ghost predicate Inv(s: State) {
    RingOk(s) && VuOk(s) && EeOk(s)
  }

  /** The writer only writes where nothing is left to read. */
  lemma WriteOutside(s: State, at: nat, word: nat)
    requires RingOk(s) && at < |s.buffer| && s.atoWrite <= at && (Wrapped(s) ==> at < s.atoRead)
    ensures RingOk(s.(buffer := s.buffer[at := word]))
  {
    hide Tiles, WrapTiles;
    var b := s.buffer[at := word];
    if Wrapped(s) {
      WrapTilesSame(s.buffer, b, s.atoRead, s.lapEnd, s.atoWrite, Unread(s));
    } else {
      TilesSame(s.buffer, b, s.atoRead, s.atoWrite, Unread(s));
    }
  }

  lemma WriteNullKeeps(s: State, t: State)
    requires Inv(s) && s.ee.WriteNull? && EeStep(s, t)
    ensures Inv(t)
  {
    hide Tiles, WrapTiles, Encode, Proper;
    WriteOutside(s, s.writePos, NULL_TAG);
    assert At(t.buffer, t.lapEnd, [NULL_TAG]);
    var u := s.(buffer := t.buffer);
    assert RingOk(u) && Unread(u) == Unread(t);
    hide At;
    assert RingOk(t) && VuOk(t);
  }

  lemma CommitNullKeeps(s: State, t: State)
    requires Inv(s) && s.ee.CommitNull? && EeStep(s, t) && s.atoRead != 0
    ensures Inv(t)
  {
    TilesWrap(s.buffer, s.atoRead, s.lapEnd, Unread(s));
    TilesOrder(s.buffer, s.atoRead, s.atoWrite, Unread(s));
    hide Tiles, WrapTiles, Encode, Proper, Length, Decode;
  }

  lemma WordAppends(b: seq<nat>, at: nat, e: seq<nat>, done: nat)
    requires done < |e| && at + |e| <= |b| && At(b, at, e[..done])
    ensures At(b[at + done := e[done]], at, e[..done + 1])
  {
    assert b[at + done := e[done]][at..at + done + 1] == b[at..at + done] + [e[done]];
    assert e[..done + 1] == e[..done] + [e[done]];
  }

  lemma WritingKeeps(s: State, t: State)
    requires Inv(s) && s.ee.Writing? && EeStep(s, t)
    ensures Inv(t)
  {
    hide Tiles, WrapTiles, Encode, Proper, Length, Decode, At;
    WriteOutside(s, s.writePos, Encode(s.ee.r)[s.ee.done]);
    WordAppends(s.buffer, s.atoWrite, Encode(s.ee.r), s.ee.done);
    var u := s.(buffer := t.buffer);
    assert RingOk(u) && Unread(u) == Unread(t);
    assert RingOk(t) && VuOk(t);
    hide RingOk, VuOk;
    assert EeOk(t);
  }

  lemma CommitKeeps(s: State, t: State)
    requires Inv(s) && s.ee.Commit? && EeStep(s, t)
    ensures Inv(t)
  {
    hide Tiles, WrapTiles, Encode, Proper, Length, Decode;
    var r := s.ee.r;
    assert Encode(r)[..|Encode(r)|] == Encode(r);
    assert Unread(t) == Unread(s) + [r];
    if Wrapped(s) {
      WrapTilesAppend(s.buffer, s.atoRead, s.lapEnd, s.atoWrite, Unread(s), r);
    } else {
      TilesOrder(s.buffer, s.atoRead, s.atoWrite, Unread(s));
      TilesAppend(s.buffer, s.atoRead, s.atoWrite, Unread(s), r);
    }
  }

  lemma EeKeeps(s: State, t: State)
    requires Inv(s) && EeStep(s, t) && WrapsBehindReader(s)
    ensures Inv(t)
  {
    hide Tiles, WrapTiles, Encode, Proper, Length, Decode;
    match s.ee
    case WriteNull(_) => WriteNullKeeps(s, t);
    case CommitNull(_) => CommitNullKeeps(s, t);
    case Writing(_, _) => WritingKeeps(s, t);
    case Commit(_) => CommitKeeps(s, t);
    case _ => CheckKeeps(s, t);
  }

  /** The steps that only look at the reader's position. */
  lemma CheckKeeps(s: State, t: State)
    requires Inv(s) && EeStep(s, t) && WrapsBehindReader(s)
    requires s.ee.Idle? || s.ee.Reserve? || s.ee.WaitNull? || s.ee.WaitRoom?
    ensures Inv(t)
  {
    hide Tiles, WrapTiles, Encode, Proper, Length, Decode;
    assert t == s.(ee := t.ee);
    assert RingOk(t) && VuOk(t);
    hide RingOk, VuOk;
  }

  /** While the reader has something to read, it is at the NULL record or at the oldest unread record. */
  lemma AtRecord(s: State)
    requires RingOk(s) && s.atoRead != s.atoWrite && !AtNull(s)
    ensures Unread(s) != [] && Proper(Unread(s)[0]) && At(s.buffer, s.atoRead, Encode(Unread(s)[0]))
  {
    hide Encode, Proper, At;
    if !Wrapped(s) {
      TilesOrder(s.buffer, s.atoRead, s.atoWrite, Unread(s));
    }
  }

  lemma NullAt(s: State)
    requires RingOk(s) && AtNull(s)
    ensures s.buffer[s.atoRead] == NULL_TAG && Tiles(s.buffer, 0, s.atoWrite, Unread(s))
  {
    assert s.buffer[s.atoRead] == s.buffer[s.atoRead..s.atoRead + 1][0];
  }

  /** The next word the reader reads is the next word of its record. */
  lemma NextWord(s: State)
    requires RingOk(s) && VuOk(s) && s.vu.Reading? && Length(s.vu.words) != Some(|s.vu.words|) && s.readPos < |s.buffer|
    ensures var words := s.vu.words + [s.buffer[s.readPos]];
      if AtNull(s) then words <= [NULL_TAG] else Unread(s) != [] && words <= Encode(Unread(s)[0])
  {
    hide Encode, Proper, Length, Decode, Tiles, WrapTiles;
    var words := s.vu.words;
    if AtNull(s) {
      NullAt(s);
      NullLength(words);
    } else {
      AtRecord(s);
      var e := Encode(Unread(s)[0]);
      ReadRecord(Unread(s)[0], |words|);
      assert e[..|words|] == words;
      assert s.buffer[s.readPos] == s.buffer[s.atoRead..s.atoRead + |e|][|words|] == e[|words|];
    }
  }

  lemma NullLength(words: seq<nat>)
    requires words <= [NULL_TAG] && Length(words) != Some(|words|)
    ensures words == []
  {
  }

  lemma ReadWordKeeps(s: State, t: State)
    requires Inv(s) && s.vu.Reading? && VuStep(s, t) && Length(s.vu.words) != Some(|s.vu.words|)
    ensures Inv(t)
  {
    hide Tiles, WrapTiles, Encode, Proper, Length, Decode;
    NextWord(s);
    assert EeOk(t) && RingOk(t);
  }

  lemma FinishKeeps(s: State, t: State)
    requires Inv(s) && s.vu.Reading? && VuStep(s, t) && Length(s.vu.words) == Some(|s.vu.words|)
    ensures Inv(t)
  {
    if !AtNull(s) {
      AtRecord(s);
      var r := Unread(s)[0];
      ReadRecord(r, |s.vu.words|);
      assert Encode(r)[..|s.vu.words|] == s.vu.words;
      assert Encode(r)[..|Encode(r)|] == Encode(r);
      assert t.executed == s.executed + [r];
      assert Unread(t) == Unread(s);
    }
    hide Tiles, WrapTiles, Encode, Proper, Length, Decode;
    assert EeOk(t) && RingOk(t);
  }

  /** The reader passes the NULL record, or the record it has just executed. */
  lemma CommitReadMoves(s: State, t: State)
    requires RingOk(s) && VuOk(s) && s.vu.CommitRead? && VuStep(s, t)
    ensures RingOk(t)
    ensures Wrapped(t) ==> Wrapped(s) && s.atoRead <= t.atoRead
    ensures Wrapped(s) || !Wrapped(t)
  {
    hide Encode, Proper, Length, Decode;
    if AtNull(s) {
      NullAt(s);
      assert Unread(t) == Unread(s);
    } else {
      AtRecord(s);
      assert Unread(t) == Unread(s)[1..];
      if Wrapped(s) {
        WrapTilesOrder(s.buffer, t.atoRead, s.lapEnd, s.atoWrite, Unread(t));
      } else {
        TilesOrder(s.buffer, t.atoRead, s.atoWrite, Unread(t));
      }
    }
  }

  lemma CommitReadKeeps(s: State, t: State)
    requires Inv(s) && s.vu.CommitRead? && VuStep(s, t)
    ensures Inv(t)
  {
    hide Encode, Proper, Length, Decode, At;
    CommitReadMoves(s, t);
    hide Tiles, WrapTiles;
    assert EeOk(t) && VuOk(t);
  }

  lemma VuKeeps(s: State, t: State)
    requires Inv(s) && VuStep(s, t)
    ensures Inv(t)
  {
    if s.vu.Waiting? {
      if !AtNull(s) { AtRecord(s); }
      hide Tiles, WrapTiles, Encode, Proper;
      assert Unread(t) == Unread(s);
    } else if s.vu.CommitRead? {
      CommitReadKeeps(s, t);
    } else if Length(s.vu.words) == Some(|s.vu.words|) {
      FinishKeeps(s, t);
    } else {
      ReadWordKeeps(s, t);
    }
  }

  // ---------------------------------------------------------------------------------------
  // Runs
  // ---------------------------------------------------------------------------------------

  ghost predicate Steps(states: seq<State>) {
    |states| > 0 && forall i :: 0 <= i < |states| - 1 ==> Next(states[i], states[i + 1])
  }

  ghost predicate Run(states: seq<State>) {
    Steps(states) && Initial(states[0])
  }

  function Last(states: seq<State>): State
    requires states != []
  {
    states[|states| - 1]
  }

  lemma {:induction false} RunKeeps(states: seq<State>, i: nat)
    requires Run(states) && i < |states| && forall j :: 0 <= j < i ==> WrapsBehindReader(states[j])
    ensures Inv(states[i])
  {
    if i > 0 {
      RunKeeps(states, i - 1);
      hide Inv, EeStep, VuStep;
      if EeStep(states[i - 1], states[i]) { EeKeeps(states[i - 1], states[i]); }
      else { VuKeeps(states[i - 1], states[i]); }
    }
  }

  /**
    As long as the writer never wraps while the reader has committed the front, every
    interleaving executes exactly the records committed, in order. The ring looks empty exactly
    when all of them are executed, the last one is also committed as read, and no NULL record is
    left to pass.
   */
  lemma FirstInFirstOut(states: seq<State>, i: nat)
    requires Run(states) && i < |states| && forall j :: 0 <= j < i ==> WrapsBehindReader(states[j])
    ensures states[i].executed <= states[i].committed
    ensures states[i].atoRead == states[i].atoWrite <==>
      states[i].executed == states[i].committed && !AtNull(states[i]) &&
      !(states[i].vu.CommitRead? && states[i].readPos != 0)
  {
    RunKeeps(states, i);
    hide Run;
    var s := states[i];
    if !Wrapped(s) {
      TilesOrder(s.buffer, s.atoRead, s.atoWrite, Unread(s));
    }
  }

  /**
    A wrap keeps the invariant exactly if the committed read position is not the front. It keeps
    the ring honest, so that it looks empty only if all is executed, exactly if besides nothing is
    left to execute. If the reader waits at the front, it cannot move until the writer commits a
    record, and that record is written over the oldest unread one.
   */
  lemma WrapLosesRecords(s: State, t: State)
    requires Inv(s) && s.ee.CommitNull? && EeStep(s, t)
    ensures Inv(t) <==> s.atoRead != 0
    ensures (t.atoRead == t.atoWrite ==> t.executed == t.committed) <==> (s.atoRead != 0 || s.executed == s.committed)
    ensures s.atoRead == 0 && s.vu.Waiting? ==>
      t.executed != t.committed && (forall u :: !VuStep(t, u)) && t.writePos == 0 &&
      At(t.buffer, 0, Encode(t.committed[|t.executed|]))
  {
    if s.atoRead != 0 {
      CommitNullKeeps(s, t);
    } else {
      TilesOrder(s.buffer, s.atoRead, s.atoWrite, Unread(s));
      assert Unread(t) == Unread(s);
      if RingOk(t) {
        TilesOrder(t.buffer, 0, 0, Unread(t));
      }
    }
  }

  // ---------------------------------------------------------------------------------------
  // Runs that lose records
  // ---------------------------------------------------------------------------------------

  lemma Grow(states: seq<State>, t: State) returns (longer: seq<State>)
    requires Steps(states) && Next(Last(states), t)
    ensures Steps(longer) && states <= longer && Last(longer) == t
  {
    longer := states + [t];
    forall i | 0 <= i < |longer| - 1
      ensures Next(longer[i], longer[i + 1])
    {
      if i < |states| - 1 {
        assert Next(states[i], states[i + 1]);
      }
    }
  }

  /** The buffer with words put at a position. */
  function Put(b: seq<nat>, at: nat, words: seq<nat>): (c: seq<nat>)
    requires at + |words| <= |b|
    ensures |c| == |b| && c[at..at + |words|] == words
  {
    b[..at] + words + b[at + |words|..]
  }

  lemma PutOne(b: seq<nat>, at: nat, words: seq<nat>)
    requires words != [] && at + |words| <= |b|
    ensures Put(b[at := words[0]], at + 1, words[1..]) == Put(b, at, words)
  {
  }

  /** The EE thread writes the rest of a record. */
  lemma {:induction false} WriteRest(states: seq<State>, r: Record, done: nat) returns (longer: seq<State>)
    requires Steps(states) && done < |Encode(r)| && Last(states).ee == Writing(r, done)
    requires Last(states).writePos + |Encode(r)| - done <= |Last(states).buffer|
    ensures Steps(longer) && states <= longer
    ensures var s := Last(states); var rest := Encode(r)[done..];
      Last(longer) == s.(buffer := Put(s.buffer, s.writePos, rest), writePos := s.writePos + |rest|, ee := Commit(r))
    decreases |Encode(r)| - done
  {
    hide Encode, Put;
    var s := Last(states);
    var e := Encode(r);
    PutOne(s.buffer, s.writePos, e[done..]);
    var t := s.(buffer := s.buffer[s.writePos := e[done]], writePos := s.writePos + 1,
                ee := if done + 1 == |e| then Commit(r) else Writing(r, done + 1));
    assert e[done..][1..] == e[done + 1..] && e[done..][0] == e[done];
    longer := Grow(states, t);
    if done + 1 < |e| {
      longer := WriteRest(longer, r, done + 1);
    } else {
      assert e[done + 1..] == [];
      PutNothing(t.buffer, t.writePos);
    }
  }

  lemma PutNothing(b: seq<nat>, at: nat)
    requires at <= |b|
    ensures Put(b, at, []) == b
  {
  }

  /** The state in which the EE thread has sent one more record, to position `at`. */
  function Sent(s: State, at: nat, r: Record): State
    requires at + |Encode(r)| <= |s.buffer|
  {
    var end := at + |Encode(r)|;
    s.(
      buffer := Put(s.buffer, at, Encode(r)), writePos := end, atoWrite := end,
      committed := s.committed + [r], ee := Idle)
  }

  /** The EE thread has waited for room, which there is, and writes the record. */
  lemma SendNow(states: seq<State>, r: Record) returns (longer: seq<State>)
    requires Steps(states) && Last(states).ee == WaitRoom(r) && Room(Last(states), |Encode(r)|)
    requires Last(states).writePos + |Encode(r)| <= |Last(states).buffer|
    ensures Steps(longer) && states <= longer && Last(longer) == Sent(Last(states), Last(states).writePos, r)
  {
    hide Encode, Put;
    var s := Last(states);
    assert Encode(r)[0..] == Encode(r);
    longer := Grow(states, s.(ee := Writing(r, 0)));
    longer := WriteRest(longer, r, 0);
    longer := Grow(longer, Sent(s, s.writePos, r));
  }

  /** A record that fits behind the ones sent. */
  lemma Send(states: seq<State>, r: Record) returns (longer: seq<State>)
    requires Steps(states) && Proper(r)
    requires var s := Last(states);
      s.ee == Idle && s.atoRead <= s.writePos && s.writePos + |Encode(r)| <= |s.buffer| - 1
    ensures Steps(longer) && states <= longer && Last(longer) == Sent(Last(states), Last(states).writePos, r)
  {
    ProperSize(r);
    hide Encode, Proper, Put;
    var s := Last(states);
    longer := Grow(states, s.(ee := Reserve(r)));
    longer := Grow(longer, s.(ee := WaitRoom(r)));
    longer := SendNow(longer, r);
  }

  lemma ProperSize(r: Record)
    requires Proper(r)
    ensures |Encode(r)| <= SAFETY
  {
  }

  /** A record that does not fit, while the reader's committed position is the front. */
  lemma SendWrapping(states: seq<State>, r: Record) returns (longer: seq<State>)
    requires Steps(states) && Proper(r)
    requires var s := Last(states);
      s.ee == Idle && s.atoRead == 0 && |Encode(r)| < |s.buffer| && |s.buffer| - 1 < s.writePos + |Encode(r)| &&
      s.writePos < |s.buffer|
    ensures Steps(longer) && states <= longer
    ensures var s := Last(states); var p := s.writePos;
      Last(longer) == Sent(s.(buffer := s.buffer[p := NULL_TAG], lapEnd := p), 0, r)
  {
    hide Encode, Proper, Put;
    ProperSize(r);
    var s := Last(states);
    longer := Grow(states, s.(ee := Reserve(r)));
    longer := Grow(longer, s.(ee := WaitNull(r)));
    longer := Grow(longer, s.(ee := WriteNull(r)));
    hide Steps;
    var t := s.(buffer := s.buffer[s.writePos := NULL_TAG], lapEnd := s.writePos, writePos := 0);
    longer := WrapAndSend(longer, t, r);
  }

  /** From the NULL record on. */
  lemma WrapAndSend(states: seq<State>, t: State, r: Record) returns (longer: seq<State>)
    requires Steps(states) && Last(states).ee == WriteNull(r) && Last(states).writePos < |Last(states).buffer|
    requires var s := Last(states);
      t == s.(buffer := s.buffer[s.writePos := NULL_TAG], lapEnd := s.writePos, writePos := 0, ee := t.ee)
    requires Last(states).atoRead == 0 && |Encode(r)| < |Last(states).buffer|
    ensures Steps(longer) && states <= longer && Last(longer) == Sent(t, 0, r)
  {
    hide Encode, Put;
    longer := Grow(states, t.(ee := CommitNull(r)));
    longer := Grow(longer, t.(atoWrite := 0, ee := WaitRoom(r)));
    longer := SendNow(longer, r);
  }

  /** Nothing changed that concerns the reader, and records were only added. */
  predicate SameReader(s: State, t: State) {
    (t.vu, t.readPos, t.atoRead, t.executed) == (s.vu, s.readPos, s.atoRead, s.executed) &&
    |t.buffer| == |s.buffer| && s.committed <= t.committed
  }

  /** The same record over and over, until it is at the front: the writer never sees the ring full. */
  lemma {:induction false} SendUntilWrapped(states: seq<State>, r: Record) returns (longer: seq<State>)
    requires Steps(states) && Proper(r)
    requires var s := Last(states);
      s.ee == Idle && s.atoRead == 0 && s.writePos < |s.buffer| && |Encode(r)| < |s.buffer|
    ensures Steps(longer) && states <= longer && SameReader(Last(states), Last(longer))
    ensures var t := Last(longer); t.ee == Idle && t.writePos == t.atoWrite == |Encode(r)|
    decreases |Last(states).buffer| - Last(states).writePos
  {
    var s := Last(states);
    hide Encode, Proper, Put;
    if s.writePos + |Encode(r)| <= |s.buffer| - 1 {
      longer := Send(states, r);
      longer := SendUntilWrapped(longer, r);
    } else {
      longer := SendWrapping(states, r);
    }
  }

  /** The VU thread reads the rest of the record at its committed position, and executes it. */
  lemma {:induction false} ReadRest(states: seq<State>, r: Record, n: nat) returns (longer: seq<State>)
    requires Steps(states) && Proper(r) && n <= |Encode(r)|
    requires var s := Last(states);
      s.vu == Reading(Encode(r)[..n]) && s.readPos == s.atoRead + n && At(s.buffer, s.atoRead, Encode(r))
    ensures Steps(longer) && states <= longer
    ensures var s := Last(states);
      Last(longer) == s.(vu := CommitRead, readPos := s.atoRead + |Encode(r)|, executed := s.executed + [r])
    decreases |Encode(r)| - n
  {
    hide Encode, Proper, Length, Decode;
    ReadRecord(r, n);
    var s := Last(states);
    var e := Encode(r);
    hide Steps;
    if n == |e| {
      longer := Grow(states, s.(vu := CommitRead, executed := s.executed + [r]));
    } else {
      assert s.buffer[s.readPos] == s.buffer[s.atoRead..s.atoRead + |e|][n] == e[n];
      assert e[..n] + [e[n]] == e[..n + 1];
      longer := Grow(states, s.(vu := Reading(e[..n + 1]), readPos := s.readPos + 1));
      longer := ReadRest(longer, r, n + 1);
    }
  }

  lemma Take(states: seq<State>, r: Record) returns (longer: seq<State>)
    requires Steps(states) && Proper(r)
    requires var s := Last(states);
      s.vu == Waiting && s.readPos == s.atoRead != s.atoWrite && At(s.buffer, s.atoRead, Encode(r))
    ensures Steps(longer) && states <= longer
    ensures var s := Last(states);
      Last(longer) == s.(vu := CommitRead, readPos := s.atoRead + |Encode(r)|, executed := s.executed + [r])
  {
    hide Encode, Proper, At;
    var s := Last(states);
    longer := Grow(states, s.(vu := Reading([])));
    assert Encode(r)[..0] == [];
    longer := ReadRest(longer, r, 0);
  }

  /** While the writer is about to wrap, the reader at the front can execute its record without committing that. */
  lemma ExecuteFront(s: State) returns (states: seq<State>, r: Record)
    requires Inv(s) && s.ee.CommitNull? && s.atoRead == 0
    ensures Steps(states) && states[0] == s && Proper(r) && 0 < |Encode(r)| < |s.buffer|
    ensures var t := Last(states);
      t == s.(vu := CommitRead, readPos := |Encode(r)|, executed := t.executed) && t.executed <= t.committed
  {
    AtRecord(s);
    TilesOrder(s.buffer, 0, s.atoWrite, Unread(s));
    r := Unread(s)[0];
    states := [s];
    hide Tiles, WrapTiles, Proper, Encode, At;
    match s.vu {
      case Waiting =>
        states := Take(states, r);
        assert s.executed + [r] <= s.committed;
      case Reading(words) =>
        states := ReadRest(states, r, |words|);
        assert s.executed + [r] <= s.committed;
      case CommitRead =>
    }
  }

  /** The reader commits where the writer is; the next record sent is then executed in place of an earlier one. */
  lemma SkipRecords(states: seq<State>) returns (longer: seq<State>)
    requires Steps(states)
    requires var s := Last(states);
      s.ee == Idle && s.vu == CommitRead && s.readPos == s.writePos == s.atoWrite && s.writePos + 4 <= |s.buffer| - 1 &&
      |s.executed| < |s.committed|
    ensures Steps(longer) && states <= longer && !(Last(longer).executed <= Last(longer).committed)
  {
    var s := Last(states);
    var n := |s.executed|;
    var r := ExecuteVu(if s.committed[n] == ExecuteVu(0, 0, 0) then 1 else 0, 0, 0);
    longer := Grow(states, s.(atoRead := s.readPos, vu := Waiting));
    longer := Send(longer, r);
    hide Encode, Proper, Put;
    longer := Take(longer, r);
    assert Last(longer).executed[n] == r && Last(longer).committed[n] == s.committed[n];
  }

  /**
    The condition is needed at every single wrap: whatever state the writer wraps in while the
    committed read position is the front, from there the two threads can go on to a state in which
    the records executed are not a prefix of those committed.
   */
  lemma WrapCanLose(s: State) returns (states: seq<State>)
    requires Inv(s) && s.ee.CommitNull? && s.atoRead == 0 && |s.buffer| > SAFETY + 4
    ensures Steps(states) && states[0] == s && !(Last(states).executed <= Last(states).committed)
  {
    var r;
    states, r := ExecuteFront(s);
    ProperSize(r);
    ProperSize(s.ee.r);
    var t := Last(states);
    hide Inv, Encode, Proper, Put;
    states := Grow(states, t.(atoWrite := 0, ee := WaitRoom(s.ee.r)));
    states := SendNow(states, s.ee.r);
    states := SendUntilWrapped(states, r);
    states := SkipRecords(states);
  }

  /** So can every run that comes to such a wrap, though every wrap before was behind the reader. */
  lemma RunCanLose(states: seq<State>) returns (longer: seq<State>)
    requires Run(states) && (forall j :: 0 <= j < |states| - 1 ==> WrapsBehindReader(states[j]))
    requires !WrapsBehindReader(Last(states)) && |Last(states).buffer| > SAFETY + 4
    ensures Run(longer) && states <= longer && !(Last(longer).executed <= Last(longer).committed)
  {
    RunKeeps(states, |states| - 1);
    hide Inv;
    var rest := WrapCanLose(Last(states));
    longer := states + rest[1..];
    forall i | 0 <= i < |longer| - 1
      ensures Next(longer[i], longer[i + 1])
    {
      if i < |states| - 1 {
        assert Next(states[i], states[i + 1]);
      } else {
        assert Next(rest[i - |states| + 1], rest[i - |states| + 2]);
      }
    }
  }

  /** The EE thread fills the ring with EXECUTE records, of four words each, before the VU thread reads any. */
  lemma {:induction false} FillUp(states: seq<State>, r: Record) returns (longer: seq<State>)
    requires Run(states) && r.ExecuteVu?
    requires var s := Last(states); s.ee == Idle && s.vu == Waiting && s.readPos == s.atoRead == 0 && s.executed == []
    requires var s := Last(states); s.writePos < |s.buffer| && (s.committed != [] ==> s.committed[0] == r)
    ensures Run(longer) && states <= longer && SameReader(Last(states), Last(longer))
    ensures var t := Last(longer); t.ee == Idle && t.writePos < |t.buffer| <= t.writePos + 4
    ensures var t := Last(longer); t.committed != [] ==> t.committed[0] == r
    decreases |Last(states).buffer| - Last(states).writePos
  {
    var s := Last(states);
    if s.writePos + 4 <= |s.buffer| - 1 {
      longer := Send(states, r);
      hide Encode, Put;
      longer := FillUp(longer, r);
    } else {
      longer := states;
    }
  }

  /**
    A run that loses records, in a ring of any size that holds a record at all: the last record
    does not fit behind the others, so the writer wraps while nothing has been read; it takes the
    ring for empty and overwrites the first record, and the VU thread only ever sees the last.
   */
  lemma LosingRun(n: nat) returns (states: seq<State>)
    requires n >= 5
    ensures Run(states) && |Last(states).buffer| == n && !(Last(states).executed <= Last(states).committed)
  {
    var r1, r2 := ExecuteVu(1, 0, 0), ExecuteVu(2, 0, 0);
    states := [State(seq(n, i => 0), Idle, Waiting, 0, 0, 0, 0, 0, [], [])];
    states := Send(states, r1);
    states := FillUp(states, r1);
    states := SendWrapping(states, r2);
    states := Take(states, r2);
    assert Last(states).executed == [r2] && Last(states).committed[0] == r1;
  }
}
