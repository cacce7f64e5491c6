/** The length-prefixed log: records framed by an 8-byte big-endian length, appended through a
    buffered writer to an append-only file and read back by position. */
module LogStore {
  import opened Arithmetic

  type Byte = b: int | 0 <= b < 256

  datatype Result<+T> = Ok(value: T) | UnexpectedEnd | Closed

  const LEN_WIDTH: nat := 8

  // ---- Frames ----

  function Encode(n: nat, width: nat): (s: seq<Byte>)
    ensures |s| == width
  {
    if width == 0 then [] else Encode(n / 256, width - 1) + [n % 256]
  }

  function Decode(s: seq<Byte>): nat {
    if s == [] then 0 else 256 * Decode(s[..|s| - 1]) + s[|s| - 1]
  }

  function Pow256(width: nat): nat {
    if width == 0 then 1 else 256 * Pow256(width - 1)
  }

  lemma {:induction false} DecodeEncode(n: nat, width: nat)
    requires n < Pow256(width)
    ensures Decode(Encode(n, width)) == n
  {
    if width == 0 {
    } else {
      DecodeEncode(n / 256, width - 1);
      assert Encode(n, width)[..width - 1] == Encode(n / 256, width - 1);
    }
  }

  lemma {:induction false} Pow256Positive(width: nat)
    ensures Pow256(width) > 0
  {
    if width == 0 {
    } else {
      Pow256Positive(width - 1);
    }
  }

  /** Most significant byte first. */
  lemma {:induction false} EncodeAt(n: nat, width: nat, i: nat)
    requires i < width
    ensures Pow256(width - 1 - i) > 0
    ensures Encode(n, width)[i] == n / Pow256(width - 1 - i) % 256
  {
    Pow256Positive(width - 1 - i);
    if i == width - 1 {
    } else {
      EncodeAt(n / 256, width - 1, i);
      DivideTwice(n, 256, Pow256(width - 2 - i));
    }
  }

  lemma {:induction false} EncodeDecode(s: seq<Byte>)
    ensures Decode(s) < Pow256(|s|) && Encode(Decode(s), |s|) == s
  {
    if s == [] {
    } else {
      EncodeDecode(s[..|s| - 1]);
    }
  }

  function Frame(p: seq<Byte>): (s: seq<Byte>)
    ensures |s| == LEN_WIDTH + |p|
  {
    Encode(|p|, LEN_WIDTH) + p
  }

  /** A frame is eight bytes of length, most significant first, and then the record. */
  lemma FrameBytes(p: seq<Byte>, i: nat)
    requires i < 8
    ensures |Frame(p)| == 8 + |p| && Frame(p)[8..] == p
    ensures Pow256(7 - i) > 0 && Frame(p)[i] == |p| / Pow256(7 - i) % 256
  {
    EncodeAt(|p|, 8, i);
  }

  /** A record at `pos`: its length, then that many bytes; an error if either runs past the end. */
  function ReadFrame(stream: seq<Byte>, pos: nat): Result<seq<Byte>> {
    if pos + LEN_WIDTH > |stream| then UnexpectedEnd
    else
      var n := Decode(stream[pos..pos + LEN_WIDTH]);
      if pos + LEN_WIDTH + n > |stream| then UnexpectedEnd
      else Ok(stream[pos + LEN_WIDTH..pos + LEN_WIDTH + n])
  }

  predicate Fits(p: seq<Byte>) { |p| < Pow256(LEN_WIDTH) }

  lemma ReadsBack(before: seq<Byte>, p: seq<Byte>, after: seq<Byte>)
    requires Fits(p)
    ensures ReadFrame(before + Frame(p) + after, |before|) == Ok(p)
  {
    var stream := before + Frame(p) + after;
    DecodeEncode(|p|, LEN_WIDTH);
    assert stream[|before|..|before| + LEN_WIDTH] == Encode(|p|, LEN_WIDTH);
    assert stream[|before| + LEN_WIDTH..|before| + LEN_WIDTH + |p|] == p;
  }

  lemma ReadIsFramed(stream: seq<Byte>, pos: nat, p: seq<Byte>)
    requires ReadFrame(stream, pos) == Ok(p)
    ensures pos + 8 + |p| <= |stream| && stream[pos..pos + 8 + |p|] == Frame(p)
  {
    var length := stream[pos..pos + 8];
    EncodeDecode(length);
    assert stream[pos..pos + 8 + |p|] == length + p;
  }

  /** Reading yields a record exactly when its frame is there, whole. */
  lemma ReadsIffFramed(stream: seq<Byte>, pos: nat, p: seq<Byte>)
    requires Fits(p)
    ensures ReadFrame(stream, pos) == Ok(p) <==>
            pos + 8 + |p| <= |stream| && stream[pos..pos + 8 + |p|] == Frame(p)
  {
    if ReadFrame(stream, pos) == Ok(p) {
      ReadIsFramed(stream, pos, p);
    }
    if pos + 8 + |p| <= |stream| && stream[pos..pos + 8 + |p|] == Frame(p) {
      assert stream == stream[..pos] + Frame(p) + stream[pos + 8 + |p|..];
      ReadsBack(stream[..pos], p, stream[pos + 8 + |p|..]);
    }
  }

  /** What can be read stays readable however much is appended. */
  lemma AppendKeepsReads(stream: seq<Byte>, more: seq<Byte>, pos: nat)
    requires ReadFrame(stream, pos).Ok?
    ensures ReadFrame(stream + more, pos) == ReadFrame(stream, pos)
  {
    var n := Decode(stream[pos..pos + LEN_WIDTH]);
    assert (stream + more)[pos..pos + LEN_WIDTH] == stream[pos..pos + LEN_WIDTH];
    assert (stream + more)[pos + LEN_WIDTH..pos + LEN_WIDTH + n] == stream[pos + LEN_WIDTH..pos + LEN_WIDTH + n];
  }

  // ---- The store on values ----

  /** What has reached the file, what is still buffered, and the store's own count. */
  datatype State = State(flushed: seq<Byte>, buffered: seq<Byte>, size: nat)
  {
    function Stream(): seq<Byte> { flushed + buffered }
    ghost predicate Valid() { size == |flushed| + |buffered| }
  }

  function Open(file: seq<Byte>): State { State(file, [], |file|) }

  /** A buffered writer passes on as much as it likes: `spill` bytes of what it then holds. */
  function Write(s: State, p: seq<Byte>, spill: nat): State {
    var all := s.buffered + p;
    var k := if spill < |all| then spill else |all|;
    s.(flushed := s.flushed + all[..k], buffered := all[k..])
  }

  function Flush(s: State): State { s.(flushed := s.flushed + s.buffered, buffered := []) }

  datatype Op =
    | Append(p: seq<Byte>, spills: (nat, nat))
    | Read(pos: nat)
    | CloseAndReopen

  function Step(s: State, op: Op): State {
    match op
    case Append(p, spills) =>
      var t := Write(Write(s, Encode(|p|, LEN_WIDTH), spills.0), p, spills.1);
      t.(size := s.size + LEN_WIDTH + |p|)
    case Read(_) => Flush(s)
    case CloseAndReopen => Open(Flush(s).flushed)
  }

  lemma WriteExtends(s: State, p: seq<Byte>, spill: nat)
    ensures Write(s, p, spill).Stream() == s.Stream() + p && Write(s, p, spill).size == s.size
  {
    var all := s.buffered + p;
    var k := if spill < |all| then spill else |all|;
    assert all[..k] + all[k..] == all;
    assert (s.flushed + all[..k]) + all[k..] == s.flushed + all;
    assert s.flushed + (s.buffered + p) == (s.flushed + s.buffered) + p;
  }

  /** Every step keeps the count right and extends the stream by exactly the frame appended. */
  lemma StepExtends(s: State, op: Op)
    requires s.Valid()
    ensures Step(s, op).Valid()
    ensures Step(s, op).Stream() == s.Stream() + if op.Append? then Frame(op.p) else []
  {
    if op.Append? {
      var length := Encode(|op.p|, LEN_WIDTH);
      var t := Write(s, length, op.spills.0);
      WriteExtends(s, length, op.spills.0);
      WriteExtends(t, op.p, op.spills.1);
      assert (s.Stream() + length) + op.p == s.Stream() + (length + op.p);
      assert Step(s, op).Stream() == Write(t, op.p, op.spills.1).Stream();
      assert |Step(s, op).Stream()| == |s.Stream()| + LEN_WIDTH + |op.p|;
    }
  }

  // ---- Whole histories ----

  /** A record and the position that its append returned. */
  datatype Entry = Entry(pos: nat, p: seq<Byte>)

  function Run(file: seq<Byte>, ops: seq<Op>): State {
    if ops == [] then Open(file) else Step(Run(file, ops[..|ops| - 1]), ops[|ops| - 1])
  }

  function Entries(file: seq<Byte>, ops: seq<Op>): seq<Entry> {
    if ops == [] then []
    else
      var init, last := ops[..|ops| - 1], ops[|ops| - 1];
      Entries(file, init) + if last.Append? then [Entry(Run(file, init).size, last.p)] else []
  }

  ghost predicate Tiles(from: nat, es: seq<Entry>, to: nat) {
    if es == [] then from == to
    else Tiles(from, es[..|es| - 1], es[|es| - 1].pos) && to == es[|es| - 1].pos + LEN_WIDTH + |es[|es| - 1].p|
  }

  ghost predicate ReadsAll(stream: seq<Byte>, es: seq<Entry>) {
    forall k :: 0 <= k < |es| ==> ReadFrame(stream, es[k].pos) == Ok(es[k].p)
  }

  lemma StepReadsAll(s: State, op: Op, es: seq<Entry>)
    requires s.Valid() && ReadsAll(s.Stream(), es) && (op.Append? ==> Fits(op.p))
    ensures ReadsAll(Step(s, op).Stream(), es + if op.Append? then [Entry(s.size, op.p)] else [])
  {
    StepExtends(s, op);
    var more := if op.Append? then Frame(op.p) else [];
    forall k | 0 <= k < |es| ensures ReadFrame(Step(s, op).Stream(), es[k].pos) == Ok(es[k].p) {
      AppendKeepsReads(s.Stream(), more, es[k].pos);
    }
    if op.Append? {
      ReadsBack(s.Stream(), op.p, []);
      assert s.Stream() + Frame(op.p) + [] == Step(s, op).Stream();
      assert |s.Stream()| == s.size;
    }
  }

  /** After any history of appends, reads and reopenings over any file: the size counts all bytes,
      the returned positions tile what was appended, and each of them reads back its record. */
  lemma {:induction false} EveryRecordReadsBack(file: seq<Byte>, ops: seq<Op>)
    requires forall i :: 0 <= i < |ops| && ops[i].Append? ==> Fits(ops[i].p)
    ensures var s, es := Run(file, ops), Entries(file, ops);
            s.Valid() && Tiles(|file|, es, s.size) && ReadsAll(s.Stream(), es)
  {
    if ops == [] {
    } else {
      var init, last := ops[..|ops| - 1], ops[|ops| - 1];
      EveryRecordReadsBack(file, init);
      StepExtends(Run(file, init), last);
      StepReadsAll(Run(file, init), last, Entries(file, init));
      StepTiles(file, Run(file, init), last, Entries(file, init));
    }
  }

  lemma StepTiles(file: seq<Byte>, s: State, op: Op, es: seq<Entry>)
    requires s.Valid() && Tiles(|file|, es, s.size)
    ensures Tiles(|file|, es + if op.Append? then [Entry(s.size, op.p)] else [], Step(s, op).size)
  {
    if op.Append? {
      var es' := es + [Entry(s.size, op.p)];
      assert es'[..|es'| - 1] == es;
    } else {
      assert es + [] == es;
    }
  }

  /** Nothing that was in the file before is changed. */
  lemma {:induction false} HistoryExtends(file: seq<Byte>, ops: seq<Op>)
    ensures Run(file, ops).Valid() && file <= Run(file, ops).Stream()
  {
    if ops == [] {
    } else {
      HistoryExtends(file, ops[..|ops| - 1]);
      StepExtends(Run(file, ops[..|ops| - 1]), ops[|ops| - 1]);
    }
  }

  // ---- The store ----

  /** An append-only file; once closed it takes and gives nothing. */
  class File {
    var bytes: seq<Byte>
    var open: bool

    constructor (bytes: seq<Byte>)
      ensures this.bytes == bytes && open
    {
      this.bytes := bytes;
      open := true;
    }

    method Write(p: seq<Byte>) returns (ok: bool)
      modifies this`bytes
      ensures ok == open && bytes == if ok then old(bytes) + p else old(bytes)
    {
      if open {
        bytes := bytes + p;
      }
      ok := open;
    }

    method ReadAt(n: nat, off: nat) returns (r: Result<seq<Byte>>)
      ensures r == if !open then Closed else if off + n <= |bytes| then Ok(bytes[off..off + n]) else UnexpectedEnd
    {
      if !open {
        return Closed;
      }
      if off + n > |bytes| {
        return UnexpectedEnd;
      }
      return Ok(bytes[off..off + n]);
    }
  }

  class Store {
    const file: File
    var buf: seq<Byte>
    /** The buffered writer gives up for good after its first failed write. */
    var failed: bool
    var size: nat

    /** Only writing to a closed file fails. */
    ghost predicate Valid()
      reads this, file
    {
      failed ==> !file.open
    }

    function View(): State
      reads this, file
    {
      State(file.bytes, buf, size)
    }

    constructor (f: File)
      ensures file == f && Valid() && View() == Open(f.bytes)
    {
      file := f;
      buf := [];
      failed := false;
      size := |f.bytes|;
    }

    /** On a closed file this succeeds for as long as nothing has to be passed on. */
    method BufWrite(p: seq<Byte>, spill: nat) returns (ok: bool)
      requires Valid()
      modifies this`buf, this`failed, file`bytes
      ensures Valid()
      ensures file.open ==> ok && View() == Write(old(View()), p, spill)
      ensures !file.open ==> file.bytes == old(file.bytes) && (ok ==> buf == old(buf) + p)
      ensures !file.open ==> (ok <==> !old(failed) && (spill == 0 || old(buf) + p == []))
    {
      if failed {
        return false;
      }
      var all := buf + p;
      var k := if spill < |all| then spill else |all|;
      if k > 0 {
        ok := file.Write(all[..k]);
        if !ok {
          failed := true;
          return false;
        }
      }
      buf := all[k..];
      ok := true;
    }

    method BufFlush() returns (ok: bool)
      requires Valid()
      modifies this`buf, this`failed, file`bytes
      ensures Valid()
      ensures file.open ==> ok && View() == Flush(old(View()))
      ensures !file.open ==> file.bytes == old(file.bytes) && buf == old(buf) && (ok <==> !old(failed) && buf == [])
    {
      if failed {
        return false;
      }
      if buf == [] {
        return true;
      }
      ok := file.Write(buf);
      if ok {
        buf := [];
      } else {
        failed := true;
      }
    }

    /** How many bytes the record took and where it went; `spills` is the buffered writer's choice. */
    method AppendRecord(p: seq<Byte>, spills: (nat, nat)) returns (r: Result<(nat, nat)>)
      requires Valid()
      modifies this, file`bytes
      ensures Valid()
      ensures file.open ==> View() == Step(old(View()), Append(p, spills)) && r == Ok((8 + |p|, old(size)))
      ensures !file.open ==> file.bytes == old(file.bytes) && (r.Ok? || (r == Closed && size == old(size)))
    {
      var pos := size;
      var ok := BufWrite(Encode(|p|, LEN_WIDTH), spills.0);
      if !ok {
        return Closed;
      }
      ok := BufWrite(p, spills.1);
      if !ok {
        return Closed;
      }
      var w := |p| + LEN_WIDTH;
      size := size + w;
      return Ok((w, pos));
    }

    method ReadRecord(pos: nat) returns (r: Result<seq<Byte>>)
      requires Valid()
      modifies this, file`bytes
      ensures Valid() && size == old(size)
      ensures file.open ==> View() == Step(old(View()), Read(pos)) && r == ReadFrame(old(View()).Stream(), pos)
      ensures !file.open ==> r == Closed && file.bytes == old(file.bytes)
    {
      var ok := BufFlush();
      if !ok {
        return Closed;
      }
      var length := file.ReadAt(LEN_WIDTH, pos);
      if !length.Ok? {
        return length;
      }
      r := file.ReadAt(Decode(length.value), pos + LEN_WIDTH);
    }

    /** Everything buffered reaches the file, so a store opened on it afterwards is the reopened one;
        a second close fails. */
    method Close() returns (ok: bool)
      requires Valid()
      modifies this, file
      ensures Valid() && !file.open && ok == old(file.open)
      ensures ok ==> View() == Flush(old(View())) && Open(file.bytes) == Step(old(View()), CloseAndReopen)
      ensures !ok ==> file.bytes == old(file.bytes)
    {
      ok := BufFlush();
      if !ok {
        return;
      }
      ok := file.open;
      file.open := false;
    }
  }

  /** A store run through a whole history on a file: each append returns where its record is. */
  method Perform(file: seq<Byte>, ops: seq<Op>) returns (store: Store, positions: seq<nat>)
    ensures fresh(store) && fresh(store.file) && store.Valid() && store.file.open && store.View() == Run(file, ops)
    ensures |positions| == |Entries(file, ops)|
    ensures forall k :: 0 <= k < |positions| ==> positions[k] == Entries(file, ops)[k].pos
  {
    var f := new File(file);
    store := new Store(f);
    positions := [];
    for i := 0 to |ops|
      invariant fresh(store) && fresh(store.file) && store.Valid() && store.file.open
      invariant store.View() == Run(file, ops[..i])
      invariant |positions| == |Entries(file, ops[..i])|
      invariant forall k :: 0 <= k < |positions| ==> positions[k] == Entries(file, ops[..i])[k].pos
    {
      assert ops[..i + 1][..i] == ops[..i];
      match ops[i]
      case Append(p, spills) =>
        var r := store.AppendRecord(p, spills);
        positions := positions + [r.value.1];
      case Read(pos) =>
        var r := store.ReadRecord(pos);
      case CloseAndReopen =>
        var ok := store.Close();
        f := new File(store.file.bytes);
        store := new Store(f);
    }
    assert ops[..|ops|] == ops;
  }

  lemma ReadKeepsStream(s: State, pos: nat)
    ensures Step(s, Read(pos)).Stream() == s.Stream()
  {
  }

  /** These are the positions of these entries, and each of them can be read back. */
  ghost predicate Readable(stream: seq<Byte>, es: seq<Entry>, positions: seq<nat>) {
    ReadsAll(stream, es) && |positions| == |es| && forall k :: 0 <= k < |es| ==> positions[k] == es[k].pos
  }

  method ReadEntry(store: Store, positions: seq<nat>, k: nat, ghost es: seq<Entry>) returns (p: seq<Byte>)
    requires store.Valid() && store.file.open && Readable(store.View().Stream(), es, positions) && k < |es|
    modifies store, store.file`bytes
    ensures store.Valid() && store.View().Stream() == old(store.View().Stream()) && p == es[k].p
  {
    ReadKeepsStream(store.View(), positions[k]);
    var r := store.ReadRecord(positions[k]);
    p := r.value;
  }

  method ReadEntries(store: Store, positions: seq<nat>, ghost es: seq<Entry>) returns (records: seq<seq<Byte>>)
    requires store.Valid() && store.file.open && Readable(store.View().Stream(), es, positions)
    modifies store, store.file`bytes
    ensures |records| == |es| && forall k :: 0 <= k < |records| ==> records[k] == es[k].p
  {
    ghost var stream := store.View().Stream();
    records := [];
    for k := 0 to |positions|
      invariant store.Valid() && store.file.open && store.View().Stream() == stream
      invariant |records| == k && forall j :: 0 <= j < k ==> records[j] == es[j].p
    {
      var p := ReadEntry(store, positions, k, es);
      records := records + [p];
    }
  }

  /** Whatever the history, reading at the positions it returned gives back the records, in order. */
  method PerformAndReadBack(file: seq<Byte>, ops: seq<Op>) returns (records: seq<seq<Byte>>)
    requires forall i :: 0 <= i < |ops| && ops[i].Append? ==> Fits(ops[i].p)
    ensures |records| == |Entries(file, ops)|
    ensures forall k :: 0 <= k < |records| ==> records[k] == Entries(file, ops)[k].p
  {
    var store, positions := Perform(file, ops);
    assert ReadsAll(Run(file, ops).Stream(), Entries(file, ops)) by { EveryRecordReadsBack(file, ops); }
    records := ReadEntries(store, positions, Entries(file, ops));
  }
}
