/**
 * The writer of a ring file, one disk operation at a time: commits, new series
 * and header updates, any of which can fail part-way, and power losses at any
 * point (writeMinute, addSeries, setForgotten, writeHeader, parseRing in ring.go).
 */
module RingProtocol {
  import opened Types
  import opened Disk

  /** Slot of a minute; the source keeps it non-negative for negative minutes too. */
  function SlotOf(minute: int): (slot: nat)
    ensures slot < MINUTES
  {
    minute % MINUTES
  }

  /** One committed minute: what each series known at the commit holds, None for a series the minute lacks. */
  datatype Entry = Entry(minute: nat, row: seq<Cell>)

  function CellOf(e: Entry, i: nat): Cell {
    if i < |e.row| then e.row[i] else None
  }

  /** What is kept, by slot, after a commit. Minute 0 leaves the stamp of an empty slot, so nothing shows that it is there. */
  function KeptWith(kept: map<nat, Entry>, e: Entry): map<nat, Entry> {
    if e.minute == 0 then kept - {SlotOf(0)} else kept[SlotOf(e.minute) := e]
  }

  /** The word of column c of a cell: a gap is the absent value in all three columns. */
  function WordOf(cell: Cell, c: nat): Num {
    match cell
    case None => Absent
    case Some(v) => Val(if c == 0 then v.avg else if c == 1 then v.min else v.max)
  }

  function RowOf(n: nat, vals: map<int, MinuteValue>): (row: seq<Cell>)
    ensures |row| == n
  {
    seq(n, i => if i in vals then Some(vals[i]) else None)
  }

  // ---------------------------------------------------------------- calls and their operations

  datatype Call =
    | Commit(minute: nat, vals: map<int, MinuteValue>)
    | AddSeries(key: string)
    | SetForgotten(at: int)

  datatype DiskOp =
    | WriteStamp(slot: nat, stamp: nat)
    | WriteValue(at: nat, x: Num)
    | WriteBlock(at: nat, count: nat)   // count absent values
    | WriteHeader(copy: nat, h: Header)
    | Sync

  function ValueOps(row: seq<Cell>, slot: nat): (ops: seq<DiskOp>)
    ensures |ops| == 3 * |row|
  {
    seq(3 * |row|, q requires 0 <= q < 3 * |row| =>
      WriteValue(ValueAt(q / 3, q % 3, slot), WordOf(row[q / 3], q % 3)))
  }

  /** Zero the stamp, sync, write every value, sync, write the stamp. */
  function CommitOps(e: Entry): (ops: seq<DiskOp>)
    ensures |ops| == 3 * |e.row| + 4
  {
    var slot := SlotOf(e.minute);
    [WriteStamp(slot, 0), Sync] + ValueOps(e.row, slot) + [Sync, WriteStamp(slot, e.minute)]
  }

  /** The header a call makes durable after hdr. */
  function HeaderAfter(hdr: Header, call: Call): Header {
    match call
    case Commit(_, _) => hdr
    case AddSeries(key) => hdr.(keys := hdr.keys + [key], number := hdr.number + 1)
    case SetForgotten(at) => hdr.(forgotten := at, number := hdr.number + 1)
  }

  /** The operations of a call, in order, for a ring whose header hdr is in copy cur. */
  function OpsOf(call: Call, hdr: Header, cur: nat): seq<DiskOp>
    requires cur < 2
  {
    match call
    case Commit(minute, vals) => CommitOps(Entry(minute, RowOf(|hdr.keys|, vals)))
    case AddSeries(key) =>
      [WriteBlock(ValueAt(|hdr.keys|, 0, 0), 3 * MINUTES), Sync, WriteHeader(1 - cur, HeaderAfter(hdr, call)), Sync]
    case SetForgotten(at) => [WriteHeader(1 - cur, HeaderAfter(hdr, call)), Sync]
  }

  predicate KeyInBounds(key: string) {
    1 <= |key| <= MAX_KEY_LEN
  }

  /** What the code demands before it starts to write. */
  predicate Accepts(hdr: Header, call: Call) {
    match call
    case Commit(minute, _) => minute < STAMP_LIMIT
    case AddSeries(key) => KeyInBounds(key) && key !in hdr.keys && |hdr.keys| < MAX_SERIES
    case SetForgotten(_) => true
  }

  // ---------------------------------------------------------------- effect of one operation

  function BlockWrites(at: nat, count: nat): (ws: seq<Write>)
    ensures |ws| == count
  {
    seq(count, k requires 0 <= k < count => ValueW(at + k, Absent))
  }

  function WritesOf(op: DiskOp): seq<Write> {
    match op
    case WriteStamp(slot, stamp) => [StampW(slot, stamp)]
    case WriteValue(at, x) => [ValueW(at, x)]
    case WriteBlock(at, count) => BlockWrites(at, count)
    case WriteHeader(copy, h) => [CopyW(copy, h)]
    case Sync => []
  }

  /** What a failed operation may have written: any of its words, a torn header copy. */
  predicate PartOf(w: Write, op: DiskOp) {
    w in WritesOf(op) || (op.WriteHeader? && w == TearW(op.copy))
  }

  function Succeeded(f: File, op: DiskOp): File
    requires Sane(f)
  {
    if op.Sync? then Synced(f) else Issued(f, WritesOf(op))
  }

  predicate Failed(f: File, op: DiskOp, parts: seq<Write>) {
    forall i :: 0 <= i < |parts| ==> PartOf(parts[i], op)
  }

  predicate OpInRange(op: DiskOp) {
    match op
    case WriteStamp(slot, _) => slot < MINUTES
    case WriteHeader(copy, _) => copy < 2
    case _ => true
  }

  lemma WritesInRange(op: DiskOp, parts: seq<Write>)
    requires OpInRange(op)
    ensures AllInRange(WritesOf(op))
    ensures Failed(File(Image([], [], []), []), op, parts) ==> AllInRange(parts)
  {
  }

  // ---------------------------------------------------------------- parsing

  /** A header copy is used if it decodes; the higher number wins, the first copy on a tie; the file must hold its series. */
  function Parse(img: Image): Option<(Header, nat)>
    requires WellFormed(img)
  {
    var a, b := img.copies[0], img.copies[1];
    var cur := if a.Decodes? && (b.Torn? || b.h.number <= a.h.number) then 0 else 1;
    if img.copies[cur].Torn? || |img.vals| < ValueAt(|img.copies[cur].h.keys|, 0, 0) then None
    else Some((img.copies[cur].h, cur))
  }

  /**
   * The cell of series i for a minute, as a reader that finds both stamps alike
   * builds it. The stamp is compared with the minute as an unsigned 32-bit number.
   */
  function ReadCell(img: Image, i: nat, minute: int): Cell
    requires WellFormed(img) && ValueAt(i + 1, 0, 0) <= |img.vals|
  {
    var slot := SlotOf(minute);
    ValueAtBound(i, slot);
    var a, lo, hi := img.vals[ValueAt(i, 0, slot)], img.vals[ValueAt(i, 1, slot)], img.vals[ValueAt(i, 2, slot)];
    if img.stamps[slot] == minute % STAMP_LIMIT && a.Val? && lo.Val? && hi.Val?
    then Some(MinuteValue(a.r, lo.r, hi.r)) else None
  }

  lemma ValueAtBound(i: nat, slot: nat)
    requires slot < MINUTES
    ensures forall c: nat :: c < 3 ==> ValueAt(i, c, slot) < ValueAt(i + 1, 0, 0)
  {
  }
}
