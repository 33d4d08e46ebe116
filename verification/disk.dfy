/**
 * A ring file on a disk that can lose power (the file the ring code writes
 * through fsys.go). Four-byte words are written whole, a header copy can tear,
 * and only Sync makes writes durable: after a crash each word holds what was
 * durable or any write issued since.
 */
module Disk {
  import opened Types

  /** What a header copy says. Its checksum is an ideal one: a torn copy never decodes. */
  datatype Header = Header(forgotten: int, name: string, keys: seq<string>, number: nat)

  datatype Copy = Decodes(h: Header) | Torn

  /** The two header copies, the stamp column, then the value words of every series. */
  datatype Image = Image(copies: seq<Copy>, stamps: seq<nat>, vals: seq<Num>)

  datatype Write =
    | CopyW(copy: nat, h: Header)
    | TearW(copy: nat)
    | StampW(slot: nat, stamp: nat)
    | ValueW(at: nat, x: Num)

  /** What is durable, and the writes issued since in order. */
  datatype File = File(durable: Image, pending: seq<Write>)

  /** The word of slot in column c (avg, min, max) of series i, counted from the first value word. */
  function ValueAt(i: nat, c: nat, slot: nat): nat {
    MINUTES * (3 * i + c) + slot
  }

  lemma ValueAtInjective(i: nat, c: nat, slot: nat, j: nat, d: nat, other: nat)
    requires c < 3 && d < 3 && slot < MINUTES && other < MINUTES
    requires ValueAt(i, c, slot) == ValueAt(j, d, other)
    ensures i == j && c == d && slot == other
  {
    var p := 3 * i + c;
    var q := 3 * j + d;
    assert p < q ==> MINUTES * (p + 1) <= MINUTES * q;
    assert q < p ==> MINUTES * (q + 1) <= MINUTES * p;
  }

  /** Writing past the end of a file fills the gap with zero bytes, which read as 0.0. */
  const HOLE := Val(0.0)

  function Grown(vals: seq<Num>, n: nat): (res: seq<Num>)
    ensures |res| == if n <= |vals| then |vals| else n
  {
    if n <= |vals| then vals else vals + seq(n - |vals|, i => HOLE)
  }

  predicate WellFormed(img: Image) {
    |img.copies| == 2 && |img.stamps| == MINUTES
  }

  predicate InRange(w: Write) {
    match w
    case CopyW(copy, _) => copy < 2
    case TearW(copy) => copy < 2
    case StampW(slot, _) => slot < MINUTES
    case ValueW(_, _) => true
  }

  function Written(img: Image, w: Write): (res: Image)
    requires WellFormed(img) && InRange(w)
    ensures WellFormed(res) && |res.vals| >= |img.vals|
  {
    match w
    case CopyW(copy, h) => img.(copies := img.copies[copy := Decodes(h)])
    case TearW(copy) => img.(copies := img.copies[copy := Torn])
    case StampW(slot, stamp) => img.(stamps := img.stamps[slot := stamp])
    case ValueW(at, x) => img.(vals := Grown(img.vals, at + 1)[at := x])
  }

  predicate AllInRange(ws: seq<Write>) {
    forall i :: 0 <= i < |ws| ==> InRange(ws[i])
  }

  function WrittenAll(img: Image, ws: seq<Write>): (res: Image)
    requires WellFormed(img) && AllInRange(ws)
    ensures WellFormed(res) && |res.vals| >= |img.vals|
  {
    if ws == [] then img else Written(WrittenAll(img, ws[..|ws| - 1]), ws[|ws| - 1])
  }

  predicate Sane(f: File) {
    WellFormed(f.durable) && AllInRange(f.pending)
  }

  /** What reads see: every write issued, durable or not. */
  function Visible(f: File): (img: Image)
    requires Sane(f)
    ensures WellFormed(img) && |img.vals| >= |f.durable.vals|
  {
    WrittenAll(f.durable, f.pending)
  }

  function Synced(f: File): File
    requires Sane(f)
  {
    File(Visible(f), [])
  }

  function Issued(f: File, ws: seq<Write>): File {
    f.(pending := f.pending + ws)
  }

  // ---------------------------------------------------------------- what a crash can leave

  ghost predicate MayCopy(f: File, copy: nat, c: Copy)
    requires Sane(f) && copy < 2
  {
    || c == f.durable.copies[copy]
    || (c.Decodes? && CopyW(copy, c.h) in f.pending)
    || (c.Torn? && (TearW(copy) in f.pending || exists h :: CopyW(copy, h) in f.pending))
  }

  ghost predicate MayStamp(f: File, slot: nat, stamp: nat)
    requires Sane(f) && slot < MINUTES
  {
    stamp == f.durable.stamps[slot] || StampW(slot, stamp) in f.pending
  }

  ghost predicate MayValue(f: File, at: nat, x: Num)
    requires Sane(f)
  {
    || (at < |f.durable.vals| && x == f.durable.vals[at])
    || (at >= |f.durable.vals| && x == HOLE)
    || ValueW(at, x) in f.pending
  }

  /**
   * img is what a crash can leave: for each copy and each word on its own, what
   * was durable or one of the writes issued since (or a torn copy), and a file
   * of any length between the durable one and the one written.
   */
  ghost predicate CrashImage(f: File, img: Image)
    requires Sane(f)
  {
    && WellFormed(img)
    && |f.durable.vals| <= |img.vals| <= |Visible(f).vals|
    && (forall copy :: 0 <= copy < 2 ==> MayCopy(f, copy, img.copies[copy]))
    && (forall slot :: 0 <= slot < MINUTES ==> MayStamp(f, slot, img.stamps[slot]))
    && (forall at :: 0 <= at < |img.vals| ==> MayValue(f, at, img.vals[at]))
  }

  /** Nothing can be read after a crash of g that could not after a crash of f. */
  ghost predicate Narrows(f: File, g: File)
    requires Sane(f) && Sane(g)
  {
    && |f.durable.vals| <= |g.durable.vals|
    && (forall copy, c :: 0 <= copy < 2 && MayCopy(g, copy, c) ==> MayCopy(f, copy, c))
    && (forall slot, v :: 0 <= slot < MINUTES && MayStamp(g, slot, v) ==> MayStamp(f, slot, v))
    && (forall at, x :: 0 <= at && MayValue(g, at, x) ==> MayValue(f, at, x))
  }

  lemma IssuedMay(f: File, ws: seq<Write>)
    requires Sane(f) && AllInRange(ws)
    ensures Sane(Issued(f, ws))
    ensures forall copy, c :: 0 <= copy < 2 ==>
              (MayCopy(Issued(f, ws), copy, c) <==>
                 MayCopy(f, copy, c) || (c.Decodes? && CopyW(copy, c.h) in ws)
                 || (c.Torn? && (TearW(copy) in ws || exists h :: CopyW(copy, h) in ws)))
    ensures forall slot, v :: 0 <= slot < MINUTES ==>
              (MayStamp(Issued(f, ws), slot, v) <==> MayStamp(f, slot, v) || StampW(slot, v) in ws)
    ensures forall at, x :: 0 <= at ==>
              (MayValue(Issued(f, ws), at, x) <==> MayValue(f, at, x) || ValueW(at, x) in ws)
  {
    var g := Issued(f, ws);
    assert forall w :: w in g.pending <==> w in f.pending || w in ws;
  }

  lemma {:induction false} IssuedVisible(f: File, ws: seq<Write>)
    requires Sane(f) && AllInRange(ws)
    ensures Sane(Issued(f, ws)) && Visible(Issued(f, ws)) == WrittenAll(Visible(f), ws)
  {
    var g := Issued(f, ws);
    if ws == [] {
      assert g.pending == f.pending;
    } else {
      IssuedVisible(f, ws[..|ws| - 1]);
      assert g.pending[..|g.pending| - 1] == f.pending + ws[..|ws| - 1];
    }
  }

  /** What is visible is one of the things a crash can leave. */
  lemma {:induction false} VisibleMay(f: File)
    requires Sane(f)
    ensures CrashImage(f, Visible(f))
    decreases |f.pending|
  {
    if f.pending == [] {
    } else {
      var last := f.pending[|f.pending| - 1];
      var g := File(f.durable, f.pending[..|f.pending| - 1]);
      VisibleMay(g);
      assert f.pending == g.pending + [last];
      assert f == Issued(g, [last]);
      IssuedMay(g, [last]);
      LastWriteMay(g, last);
    }
  }

  lemma LastWriteMay(g: File, w: Write)
    requires Sane(g) && InRange(w) && CrashImage(g, Visible(g))
    ensures Sane(Issued(g, [w])) && CrashImage(Issued(g, [w]), Written(Visible(g), w))
  {
    var f := Issued(g, [w]);
    var img := Visible(g);
    IssuedMay(g, [w]);
    IssuedVisible(g, [w]);
    assert [w][..0] == [];
    assert WrittenAll(img, [w]) == Written(img, w) by {
      assert WrittenAll(img, []) == img;
    }
    assert w in [w];
  }

  lemma CrashNarrows(f: File, img: Image)
    requires Sane(f) && CrashImage(f, img)
    ensures Sane(File(img, [])) && Narrows(f, File(img, []))
  {
  }

  /** A sync only rules possibilities out. */
  lemma SyncNarrows(f: File)
    requires Sane(f)
    ensures Sane(Synced(f)) && Narrows(f, Synced(f))
  {
    VisibleMay(f);
    CrashNarrows(f, Visible(f));
  }
}
